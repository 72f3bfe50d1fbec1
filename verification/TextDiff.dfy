/** The text diff of the command line tool (agent_files/cli/vexfs_main.cpp).

    Equal leading and trailing lines are skipped and one hunk with up to three lines of context is
    printed. Proved: reading the printed hunk back and applying it to the old text gives the new text.
 */
module TextDiff {
  import opened Basics

  // ----- Lines -----

  /** A line carries its line break, and only the last one may lack it. */
  ghost predicate IsLine(s: string) {
    s != [] && forall i :: 0 <= i < |s| - 1 ==> s[i] != '\n'
  }

  predicate Ended(s: string) {
    s != [] && s[|s| - 1] == '\n'
  }

  ghost function FirstLine(s: string): (n: nat)
    requires s != []
    ensures 0 < n <= |s| && IsLine(s[..n]) && (n < |s| ==> Ended(s[..n]))
  {
    if s[0] == '\n' || |s| == 1 then 1 else 1 + FirstLine(s[1..])
  }

  ghost function Lines(s: string): seq<string>
    decreases |s|
  {
    if s == [] then [] else [s[..FirstLine(s)]] + Lines(s[FirstLine(s)..])
  }

  ghost function Concat(lines: seq<string>): string {
    if lines == [] then [] else lines[0] + Concat(lines[1..])
  }

  /** Every line is a line, and all but the last end with a break. */
  ghost predicate IsSplit(lines: seq<string>) {
    && (forall i :: 0 <= i < |lines| ==> IsLine(lines[i]))
    && (forall i :: 0 <= i < |lines| - 1 ==> Ended(lines[i]))
  }

  lemma {:induction false} LinesSplit(s: string)
    ensures Concat(Lines(s)) == s && IsSplit(Lines(s))
    decreases |s|
  {
    if s != [] {
      var n := FirstLine(s);
      LinesSplit(s[n..]);
      assert s == s[..n] + s[n..];
      assert n == |s| ==> s[n..] == [];
      assert Lines(s)[1..] == Lines(s[n..]);
      SplitCons(s[..n], Lines(s[n..]));
    }
  }

  lemma SplitCons(line: string, rest: seq<string>)
    requires IsLine(line) && IsSplit(rest) && (rest == [] || Ended(line))
    ensures IsSplit([line] + rest)
  {
  }

  lemma {:induction false} FirstLineIs(a: string, b: string)
    requires IsLine(a) && (Ended(a) || b == [])
    ensures FirstLine(a + b) == |a|
  {
    if |a| == 1 {
    } else {
      assert (a + b)[1..] == a[1..] + b;
      FirstLineIs(a[1..], b);
    }
  }

  lemma LinesCons(a: string, b: string)
    requires IsLine(a) && (Ended(a) || b == [])
    ensures Lines(a + b) == [a] + Lines(b)
  {
    FirstLineIs(a, b);
    assert (a + b)[..|a|] == a && (a + b)[|a|..] == b;
  }

  /** A text has one split only. */
  lemma {:induction false} SplitIsUnique(lines: seq<string>)
    requires IsSplit(lines)
    ensures Lines(Concat(lines)) == lines
  {
    if lines != [] {
      var rest := lines[1..];
      forall i | 0 <= i < |rest| - 1 ensures Ended(rest[i]) {
        assert rest[i] == lines[i + 1];
      }
      SplitIsUnique(rest);
      assert rest == [] ==> Concat(rest) == [];
      LinesCons(lines[0], Concat(rest));
    }
  }

  /** `value.find('\n', start)`. */
  method FindBreak(value: string, start: nat) returns (at: nat)
    requires start <= |value|
    ensures start <= at <= |value| && (forall i :: start <= i < at ==> value[i] != '\n')
    ensures at < |value| ==> value[at] == '\n'
  {
    at := start;
    while at < |value| && value[at] != '\n'
      invariant start <= at <= |value| && forall i :: start <= i < at ==> value[i] != '\n'
    {
      at := at + 1;
    }
  }

  lemma NextLine(value: string, start: nat, end: nat)
    requires start < end <= |value| && (forall i :: start <= i < end - 1 ==> value[i] != '\n')
    requires end == |value| || value[end - 1] == '\n'
    ensures Lines(value[start..]) == [value[start..end]] + Lines(value[end..])
  {
    var line := value[start..end];
    assert forall i :: 0 <= i < |line| - 1 ==> line[i] == value[start + i];
    LinesCons(line, value[end..]);
    assert value[start..] == line + value[end..];
  }

  /** `lines` are the lines before `start`. */
  ghost predicate SplitUpTo(value: string, start: nat, lines: seq<string>) {
    start <= |value| && lines + Lines(value[start..]) == Lines(value)
  }

  lemma SplitStarts(value: string)
    ensures SplitUpTo(value, 0, [])
  {
    assert value[0..] == value;
  }

  lemma SplitGrows(value: string, start: nat, end: nat, lines: seq<string>)
    requires SplitUpTo(value, start, lines) && start < end <= |value|
    requires (forall i :: start <= i < end - 1 ==> value[i] != '\n') && (end == |value| || value[end - 1] == '\n')
    ensures SplitUpTo(value, end, lines + [value[start..end]])
  {
    NextLine(value, start, end);
    var line, left := value[start..end], Lines(value[end..]);
    assert lines + ([line] + left) == lines + [line] + left;
  }

  lemma SplitEnds(value: string, lines: seq<string>)
    requires SplitUpTo(value, |value|, lines)
    ensures lines == Lines(value)
  {
    assert value[|value|..] == [];
    assert lines + [] == lines;
  }

  method SplitLines(value: string) returns (lines: seq<string>)
    ensures lines == Lines(value)
  {
    lines := [];
    var start := 0;
    SplitStarts(value);
    while start < |value|
      invariant SplitUpTo(value, start, lines)
    {
      var newline := FindBreak(value, start);
      if newline == |value| {
        SplitGrows(value, start, |value|, lines);
        SplitEnds(value, lines + [value[start..|value|]]);
        assert value[start..|value|] == value[start..];
        return lines + [value[start..]];
      }
      SplitGrows(value, start, newline + 1, lines);
      lines := lines + [value[start..newline + 1]];
      start := newline + 1;
    }
    SplitEnds(value, lines);
  }

  // ----- Hunks and how a reader applies them -----

  /** One printed line: ' ' for context, '-' for removed, '+' for added. */
  datatype Change<T> = Change(tag: char, text: T)

  ghost function Tagged<T>(tag: char, lines: seq<T>): seq<Change<T>> {
    seq(|lines|, i requires 0 <= i < |lines| => Change(tag, lines[i]))
  }

  ghost function Prepend<T>(line: T, rest: Option<seq<T>>): Option<seq<T>> {
    if rest.Some? then Some([line] + rest.value) else None
  }

  /** Strict application to the lines left: context and removed lines must match. */
  ghost function Apply<T>(left: seq<T>, hunk: seq<Change<T>>): Option<seq<T>>
    decreases |hunk|
  {
    if hunk == [] then Some(left)
    else if hunk[0].tag == '+' then Prepend(hunk[0].text, Apply(left, hunk[1..]))
    else if left == [] || left[0] != hunk[0].text then None
    else if hunk[0].tag == ' ' then Prepend(hunk[0].text, Apply(left[1..], hunk[1..]))
    else if hunk[0].tag == '-' then Apply(left[1..], hunk[1..])
    else None
  }

  ghost function Patch<T>(before: seq<T>, start: nat, hunk: seq<Change<T>>): Option<seq<T>> {
    if start > |before| then None
    else
      var rest := Apply(before[start..], hunk);
      if rest.Some? then Some(before[..start] + rest.value) else None
  }

  /** The lines a hunk names on one side: context and those with its tag. */
  ghost function SideOf<T>(hunk: seq<Change<T>>, tag: char): seq<T> {
    if hunk == [] then []
    else (if hunk[0].tag == ' ' || hunk[0].tag == tag then [hunk[0].text] else []) + SideOf(hunk[1..], tag)
  }

  ghost predicate TagsKnown<T>(hunk: seq<Change<T>>) {
    forall i :: 0 <= i < |hunk| ==> hunk[i].tag == ' ' || hunk[i].tag == '-' || hunk[i].tag == '+'
  }

  lemma {:induction false} AppliedSides<T>(left: seq<T>, hunk: seq<Change<T>>) returns (rest: seq<T>)
    requires Apply(left, hunk).Some?
    ensures TagsKnown(hunk) && left == SideOf(hunk, '-') + rest
    ensures Apply(left, hunk).value == SideOf(hunk, '+') + rest
    decreases |hunk|
  {
    if hunk == [] {
      rest := left;
    } else {
      var gone, come := SideOf(hunk[1..], '-'), SideOf(hunk[1..], '+');
      if hunk[0].tag == '+' {
        rest := AppliedSides(left, hunk[1..]);
        assert [hunk[0].text] + (come + rest) == [hunk[0].text] + come + rest;
      } else {
        rest := AppliedSides(left[1..], hunk[1..]);
        assert left == [hunk[0].text] + left[1..];
        assert [hunk[0].text] + (gone + rest) == [hunk[0].text] + gone + rest;
        assert [hunk[0].text] + (come + rest) == [hunk[0].text] + come + rest;
      }
      forall i | 0 <= i < |hunk| ensures hunk[i].tag == ' ' || hunk[i].tag == '-' || hunk[i].tag == '+' {
        assert i > 0 ==> hunk[i] == hunk[1..][i - 1];
      }
    }
  }

  lemma {:induction false} SidesApply<T>(hunk: seq<Change<T>>, rest: seq<T>)
    requires TagsKnown(hunk)
    ensures Apply(SideOf(hunk, '-') + rest, hunk) == Some(SideOf(hunk, '+') + rest)
    decreases |hunk|
  {
    if hunk == [] {
      assert SideOf(hunk, '-') + rest == rest && SideOf(hunk, '+') + rest == rest;
    } else {
      SidesApply(hunk[1..], rest);
      var line, gone, come := hunk[0].text, SideOf(hunk[1..], '-'), SideOf(hunk[1..], '+');
      assert hunk[0].tag == ' ' || hunk[0].tag == '-' || hunk[0].tag == '+';
      if hunk[0].tag == '+' {
        assert SideOf(hunk, '-') + rest == gone + rest;
      } else {
        assert SideOf(hunk, '-') + rest == [line] + (gone + rest);
      }
      if hunk[0].tag == '-' {
        assert SideOf(hunk, '+') + rest == come + rest;
      } else {
        assert SideOf(hunk, '+') + rest == [line] + (come + rest);
      }
    }
  }

  /** A hunk applies if and only if its old side is what the lines begin with, and its new side takes that place. */
  lemma ApplyIff<T>(left: seq<T>, hunk: seq<Change<T>>, out: seq<T>)
    ensures Apply(left, hunk) == Some(out) <==>
              TagsKnown(hunk) && exists rest :: left == SideOf(hunk, '-') + rest && out == SideOf(hunk, '+') + rest
  {
    if Apply(left, hunk) == Some(out) {
      var rest := AppliedSides(left, hunk);
    }
    forall rest | TagsKnown(hunk) && left == SideOf(hunk, '-') + rest && out == SideOf(hunk, '+') + rest
      ensures Apply(left, hunk) == Some(out)
    {
      SidesApply(hunk, rest);
    }
  }

  /** The lines of one side: context and those with its tag. */
  ghost function Count<T>(hunk: seq<Change<T>>, tag: char): nat {
    if hunk == [] then 0 else (if hunk[0].tag == ' ' || hunk[0].tag == tag then 1 else 0) + Count(hunk[1..], tag)
  }

  lemma {:induction false} ApplyContext<T>(lines: seq<T>, left: seq<T>, hunk: seq<Change<T>>, out: seq<T>)
    requires Apply(left, hunk) == Some(out)
    ensures Apply(lines + left, Tagged(' ', lines) + hunk) == Some(lines + out)
  {
    if lines == [] {
      assert Tagged(' ', lines) + hunk == hunk && lines + left == left && lines + out == out;
    } else {
      ApplyContext(lines[1..], left, hunk, out);
      assert (Tagged(' ', lines) + hunk)[1..] == Tagged(' ', lines[1..]) + hunk;
      assert (lines + left)[1..] == lines[1..] + left;
      assert lines + out == [lines[0]] + (lines[1..] + out);
    }
  }

  lemma {:induction false} ApplyRemoved<T>(lines: seq<T>, left: seq<T>, hunk: seq<Change<T>>)
    ensures Apply(lines + left, Tagged('-', lines) + hunk) == Apply(left, hunk)
  {
    if lines == [] {
      assert Tagged('-', lines) + hunk == hunk && lines + left == left;
    } else {
      ApplyRemoved(lines[1..], left, hunk);
      assert (Tagged('-', lines) + hunk)[1..] == Tagged('-', lines[1..]) + hunk;
      assert (lines + left)[1..] == lines[1..] + left;
    }
  }

  lemma {:induction false} ApplyAdded<T>(lines: seq<T>, left: seq<T>, hunk: seq<Change<T>>, out: seq<T>)
    requires Apply(left, hunk) == Some(out)
    ensures Apply(left, Tagged('+', lines) + hunk) == Some(lines + out)
  {
    if lines == [] {
      assert Tagged('+', lines) + hunk == hunk && lines + out == out;
    } else {
      ApplyAdded(lines[1..], left, hunk, out);
      assert (Tagged('+', lines) + hunk)[1..] == Tagged('+', lines[1..]) + hunk;
      assert lines + out == [lines[0]] + (lines[1..] + out);
    }
  }

  lemma {:induction false} CountTagged<T>(lines: seq<T>, of: char, rest: seq<Change<T>>, tag: char)
    ensures Count(Tagged(of, lines) + rest, tag) == (if of == ' ' || of == tag then |lines| else 0) + Count(rest, tag)
  {
    var hunk := Tagged(of, lines) + rest;
    if lines == [] {
      assert hunk == rest;
    } else {
      CountTagged(lines[1..], of, rest, tag);
      assert hunk[1..] == Tagged(of, lines[1..]) + rest;
    }
  }

  /** Two line lists cut up for a hunk: `gone` was replaced by `come`, the rest is common. */
  datatype Cut<T> = Cut(head: seq<T>, before: seq<T>, gone: seq<T>, come: seq<T>, after: seq<T>, rest: seq<T>)

  ghost function OldSide<T>(c: Cut<T>): seq<T> { c.head + (c.before + (c.gone + (c.after + c.rest))) }

  ghost function NewSide<T>(c: Cut<T>): seq<T> { c.head + (c.before + (c.come + (c.after + c.rest))) }

  /** Context, removed lines, added lines, context. */
  ghost function Hunk<T>(c: Cut<T>): seq<Change<T>> {
    Tagged(' ', c.before) + (Tagged('-', c.gone) + (Tagged('+', c.come) + Tagged(' ', c.after)))
  }

  ghost predicate StartsApart<T>(a: seq<T>, b: seq<T>) {
    a != [] && b != [] ==> a[0] != b[0]
  }

  /** Nothing common is left inside, and the context is three lines unless the text ends. */
  ghost predicate IsTight<T>(c: Cut<T>) {
    && |c.before| <= 3 && (|c.before| < 3 ==> c.head == [])
    && |c.after| <= 3 && (|c.after| < 3 ==> c.rest == [])
    && StartsApart(c.gone + c.after, c.come + c.after)
    && (c.gone != [] && c.come != [] ==> c.gone[0] != c.come[0] && c.gone[|c.gone| - 1] != c.come[|c.come| - 1])
  }

  /** Applying the hunk to the old lines gives the new lines. */
  lemma HunkApplies<T>(c: Cut<T>)
    ensures Patch(OldSide(c), |c.head|, Hunk(c)) == Some(NewSide(c))
  {
    ApplyContext(c.after, c.rest, [], c.rest);
    assert Tagged(' ', c.after) + [] == Tagged(' ', c.after);
    ApplyAdded(c.come, c.after + c.rest, Tagged(' ', c.after), c.after + c.rest);
    ApplyRemoved(c.gone, c.after + c.rest, Tagged('+', c.come) + Tagged(' ', c.after));
    ApplyContext(c.before, c.gone + (c.after + c.rest),
                 Tagged('-', c.gone) + (Tagged('+', c.come) + Tagged(' ', c.after)),
                 c.come + (c.after + c.rest));
    assert OldSide(c)[..|c.head|] == c.head && OldSide(c)[|c.head|..] == c.before + (c.gone + (c.after + c.rest));
  }

  /** The lines each side of the hunk accounts for. */
  lemma HunkCounts<T>(c: Cut<T>, tag: char)
    requires tag == '-' || tag == '+'
    ensures Count(Hunk(c), tag) == |c.before| + (if tag == '-' then |c.gone| else |c.come|) + |c.after|
  {
    CountTagged(c.before, ' ', Tagged('-', c.gone) + (Tagged('+', c.come) + Tagged(' ', c.after)), tag);
    CountTagged(c.gone, '-', Tagged('+', c.come) + Tagged(' ', c.after), tag);
    CountTagged(c.come, '+', Tagged(' ', c.after), tag);
    CountTagged(c.after, ' ', [], tag);
    assert Tagged(' ', c.after) + [] == Tagged(' ', c.after);
  }

  // ----- Finding the cut -----

  ghost predicate CommonPrefix<T>(a: seq<T>, b: seq<T>, n: nat) {
    n <= |a| && n <= |b| && forall i :: 0 <= i < n ==> a[i] == b[i]
  }

  ghost predicate CommonSuffix<T>(a: seq<T>, b: seq<T>, n: nat) {
    n <= |a| && n <= |b| && forall i :: |a| - n <= i < |a| ==> a[i] == b[i + |b| - |a|]
  }

  /** The common ends do not overlap, and neither can be extended. */
  ghost predicate IsWindow<T>(a: seq<T>, b: seq<T>, prefix: nat, suffix: nat) {
    && CommonPrefix(a, b, prefix) && CommonSuffix(a, b, suffix)
    && prefix + suffix <= |a| && prefix + suffix <= |b|
    && (prefix + suffix < |a| && prefix + suffix < |b| ==>
          a[prefix] != b[prefix] && a[|a| - suffix - 1] != b[|b| - suffix - 1])
    && (prefix < |a| && prefix < |b| ==> a[prefix] != b[prefix])
  }

  method FindWindow<T(==)>(a: seq<T>, b: seq<T>) returns (prefix: nat, suffix: nat)
    ensures IsWindow(a, b, prefix, suffix)
  {
    prefix := 0;
    while prefix < |a| && prefix < |b| && a[prefix] == b[prefix]
      invariant CommonPrefix(a, b, prefix)
    {
      prefix := prefix + 1;
    }
    suffix := 0;
    while suffix < |a| - prefix && suffix < |b| - prefix && a[|a| - suffix - 1] == b[|b| - suffix - 1]
      invariant CommonSuffix(a, b, suffix) && prefix + suffix <= |a| && prefix + suffix <= |b|
    {
      suffix := suffix + 1;
    }
  }

  function Min(a: nat, b: nat): nat { if a < b then a else b }

  function ContextStart(prefix: nat): nat { if prefix > 3 then prefix - 3 else 0 }

  /** Trailing context is taken from the new side. */
  ghost function CutAt<T>(a: seq<T>, b: seq<T>, prefix: nat, suffix: nat): Cut<T>
    requires prefix + suffix <= |a| && prefix + suffix <= |b|
  {
    var start, newEnd := ContextStart(prefix), |b| - suffix;
    var end := Min(|b|, newEnd + 3);
    Cut(a[..start], a[start..prefix], a[prefix..|a| - suffix], b[prefix..newEnd], b[newEnd..end], b[end..])
  }

  lemma SameTail<T>(a: seq<T>, b: seq<T>, n: nat)
    requires CommonSuffix(a, b, n)
    ensures b[|b| - n..] == a[|a| - n..]
  {
  }

  lemma SameFront<T>(a: seq<T>, b: seq<T>, n: nat, start: nat)
    requires CommonPrefix(a, b, n) && start <= n
    ensures a[..start] == b[..start] && a[start..n] == b[start..n]
  {
  }

  lemma Parts<T>(s: seq<T>, i: nat, j: nat, k: nat)
    requires i <= j <= k <= |s|
    ensures s == s[..i] + (s[i..j] + (s[j..k] + s[k..]))
  {
  }

  lemma OldSideIs<T>(a: seq<T>, b: seq<T>, prefix: nat, suffix: nat, start: nat)
    requires prefix + suffix <= |a| && start <= prefix && suffix <= |b| && b[|b| - suffix..] == a[|a| - suffix..]
    ensures a == a[..start] + (a[start..prefix] + (a[prefix..|a| - suffix] + b[|b| - suffix..]))
  {
    Parts(a, start, prefix, |a| - suffix);
  }

  lemma NewSideIs<T>(a: seq<T>, b: seq<T>, prefix: nat, suffix: nat, start: nat)
    requires prefix + suffix <= |b| && start <= prefix <= |a|
    requires a[..start] == b[..start] && a[start..prefix] == b[start..prefix]
    ensures b == a[..start] + (a[start..prefix] + (b[prefix..|b| - suffix] + b[|b| - suffix..]))
  {
    Parts(b, start, prefix, |b| - suffix);
  }

  lemma CutIsTight<T>(a: seq<T>, b: seq<T>, prefix: nat, suffix: nat)
    requires IsWindow(a, b, prefix, suffix)
    ensures IsTight(CutAt(a, b, prefix, suffix))
  {
  }

  lemma CutSides<T>(a: seq<T>, b: seq<T>, prefix: nat, suffix: nat, start: nat)
    requires prefix + suffix <= |a| && prefix + suffix <= |b| && start == ContextStart(prefix)
    requires b[|b| - suffix..] == a[|a| - suffix..] && a[..start] == b[..start] && a[start..prefix] == b[start..prefix]
    ensures OldSide(CutAt(a, b, prefix, suffix)) == a && NewSide(CutAt(a, b, prefix, suffix)) == b
  {
    var c := CutAt(a, b, prefix, suffix);
    var tail := b[|b| - suffix..];
    assert c.after + c.rest == tail by {
      TailParts(b, |b| - suffix, Min(|b|, |b| - suffix + 3));
    }
    assert a == c.head + (c.before + (c.gone + tail)) by {
      OldSideIs(a, b, prefix, suffix, start);
    }
    assert b == c.head + (c.before + (c.come + tail)) by {
      NewSideIs(a, b, prefix, suffix, start);
    }
  }

  /** Both sides are put together from the same pieces: what is taken from one side is on the other. */
  lemma WindowCuts<T>(a: seq<T>, b: seq<T>, prefix: nat, suffix: nat)
    requires IsWindow(a, b, prefix, suffix)
    ensures OldSide(CutAt(a, b, prefix, suffix)) == a && NewSide(CutAt(a, b, prefix, suffix)) == b
  {
    SameTail(a, b, suffix);
    SameFront(a, b, prefix, ContextStart(prefix));
    CutSides(a, b, prefix, suffix, ContextStart(prefix));
  }

  lemma TailParts<T>(s: seq<T>, k: nat, l: nat)
    requires k <= l <= |s|
    ensures s[k..] == s[k..l] + s[l..]
  {
  }

  // ----- The printed text -----

  const NO_NEWLINE: string := "\\ No newline at end of file\n"

  /** `PrintDiffLine`. */
  function Print(mark: string, c: Change<string>): string {
    [c.tag] + c.text + (if Ended(c.text) then "" else "\n" + mark)
  }

  ghost function PrintAll(mark: string, hunk: seq<Change<string>>): string {
    if hunk == [] then [] else Print(mark, hunk[0]) + PrintAll(mark, hunk[1..])
  }

  /** How a reader takes printed lines: a following no-newline mark takes the break away again. */
  ghost function Parse(mark: string, lines: seq<string>): seq<Change<string>> {
    if lines == [] || lines[0] == [] then []
    else if |lines| > 1 && lines[1] == mark then
      [Change(lines[0][0], lines[0][1..|lines[0]| - (if |lines[0]| > 1 then 1 else 0)])] + Parse(mark, lines[2..])
    else [Change(lines[0][0], lines[0][1..])] + Parse(mark, lines[1..])
  }

  ghost predicate Printable(hunk: seq<Change<string>>) {
    forall i :: 0 <= i < |hunk| ==> hunk[i].tag in " -+" && IsLine(hunk[i].text)
  }

  /** A mark is a line that no printed line can be mistaken for. */
  ghost predicate IsMark(mark: string) {
    IsLine(mark) && Ended(mark) && mark[0] == '\\'
  }

  lemma TagLine(tag: char, text: string)
    requires tag in " -+" && IsLine(text)
    ensures IsLine([tag] + text) && (Ended(text) ==> Ended([tag] + text))
    ensures !Ended(text) ==> IsLine([tag] + text + "\n") && Ended([tag] + text + "\n")
  {
    assert forall i :: 1 <= i < |[tag] + text| ==> ([tag] + text)[i] == text[i - 1];
  }

  lemma PrintedEnded(mark: string, c: Change<string>, rest: string)
    requires c.tag in " -+" && IsLine(c.text) && Ended(c.text)
    ensures Lines(Print(mark, c) + rest) == [[c.tag] + c.text] + Lines(rest)
  {
    TagLine(c.tag, c.text);
    assert Print(mark, c) == [c.tag] + c.text;
    LinesCons([c.tag] + c.text, rest);
  }

  lemma PrintedMarked(mark: string, c: Change<string>, rest: string)
    requires IsMark(mark)
    requires c.tag in " -+" && IsLine(c.text) && !Ended(c.text)
    ensures Lines(Print(mark, c) + rest) == [[c.tag] + c.text + "\n"] + ([mark] + Lines(rest))
  {
    TagLine(c.tag, c.text);
    var line := [c.tag] + c.text + "\n";
    LinesCons(mark, rest);
    LinesCons(line, mark + rest);
    JoinMark([c.tag] + c.text, mark, rest);
  }

  lemma JoinMark(line: string, mark: string, rest: string)
    ensures line + ("\n" + mark) + rest == line + "\n" + (mark + rest)
  {
  }

  /** No printed line is mistaken for the mark. */
  lemma FirstPrinted(mark: string, hunk: seq<Change<string>>)
    requires IsMark(mark)
    requires Printable(hunk)
    ensures hunk != [] ==> Lines(PrintAll(mark, hunk)) != [] && Lines(PrintAll(mark, hunk))[0] != mark
  {
    if hunk != [] {
      if Ended(hunk[0].text) {
        PrintedEnded(mark, hunk[0], PrintAll(mark, hunk[1..]));
      } else {
        PrintedMarked(mark, hunk[0], PrintAll(mark, hunk[1..]));
      }
      assert Lines(PrintAll(mark, hunk))[0][0] == hunk[0].tag;
    }
  }

  lemma ParseEnded(mark: string, c: Change<string>, lines: seq<string>)
    requires lines == [] || lines[0] != mark
    ensures Parse(mark, [[c.tag] + c.text] + lines) == [c] + Parse(mark, lines)
  {
    var all := [[c.tag] + c.text] + lines;
    assert all[1..] == lines && all[0][1..] == c.text;
  }

  lemma ParseMarked(mark: string, c: Change<string>, lines: seq<string>)
    ensures Parse(mark, [[c.tag] + c.text + "\n"] + ([mark] + lines)) == [c] + Parse(mark, lines)
  {
    var all := [[c.tag] + c.text + "\n"] + ([mark] + lines);
    assert all[2..] == lines && all[0][1..|all[0]| - 1] == c.text;
  }

  /** Reading a printed hunk gives it back. */
  lemma {:induction false} ParsePrinted(mark: string, hunk: seq<Change<string>>)
    requires IsMark(mark)
    requires Printable(hunk)
    ensures Parse(mark, Lines(PrintAll(mark, hunk))) == hunk
  {
    if hunk != [] {
      var c, rest := hunk[0], hunk[1..];
      var text := PrintAll(mark, rest);
      ParsePrinted(mark, rest);
      FirstPrinted(mark, rest);
      assert hunk == [c] + rest;
      if Ended(c.text) {
        PrintedEnded(mark, c, text);
        ParseEnded(mark, c, Lines(text));
      } else {
        PrintedMarked(mark, c, text);
        ParseMarked(mark, c, Lines(text));
      }
    }
  }

  lemma HunkIsPrintable(c: Cut<string>)
    requires forall s :: s in OldSide(c) || s in NewSide(c) ==> IsLine(s)
    ensures Printable(Hunk(c))
  {
    forall s | s in c.before || s in c.gone || s in c.come || s in c.after ensures IsLine(s) {
      assert s in OldSide(c) || s in NewSide(c);
    }
  }

  lemma Associates(a: string, b: string, c: string)
    ensures a + b + c == a + (b + c)
  {
  }

  lemma {:induction false} PrintAllAppend(mark: string, h: seq<Change<string>>, h': seq<Change<string>>)
    ensures PrintAll(mark, h + h') == PrintAll(mark, h) + PrintAll(mark, h')
  {
    if h == [] {
      assert h + h' == h' && PrintAll(mark, h) + PrintAll(mark, h') == PrintAll(mark, h');
    } else {
      PrintAllAppend(mark, h[1..], h');
      assert (h + h')[1..] == h[1..] + h' && (h + h')[0] == h[0];
      Associates(Print(mark, h[0]), PrintAll(mark, h[1..]), PrintAll(mark, h'));
    }
  }

  lemma TaggedSnoc<T>(tag: char, lines: seq<T>, from: nat, to: nat)
    requires from <= to < |lines|
    ensures Tagged(tag, lines[from..to + 1]) == Tagged(tag, lines[from..to]) + [Change(tag, lines[to])]
  {
    assert lines[from..to + 1] == lines[from..to] + [lines[to]];
  }

  /** One of the four printing loops. */
  method PrintDiffLines(mark: string, tag: char, lines: seq<string>, from: nat, to: nat, out0: string)
    returns (out: string)
    requires from <= to <= |lines|
    ensures out == out0 + PrintAll(mark, Tagged(tag, lines[from..to]))
  {
    out := out0;
    assert out0 + PrintAll(mark, Tagged(tag, lines[from..from])) == out0;
    for index := from to to
      invariant out == out0 + PrintAll(mark, Tagged(tag, lines[from..index]))
    {
      TaggedSnoc(tag, lines, from, index);
      PrintAllAppend(mark, Tagged(tag, lines[from..index]), [Change(tag, lines[index])]);
      assert PrintAll(mark, [Change(tag, lines[index])]) == Print(mark, Change(tag, lines[index]));
      out := out + Print(mark, Change(tag, lines[index]));
    }
  }

  datatype Report =
    | Unchanged
    | Binary
    | TooLarge
    | Detailed(oldStart: nat, oldCount: nat, newStart: nat, newCount: nat, body: string)

  const DETAILED_DIFF_LIMIT: nat := 4 * 1024 * 1024

  predicate HasNul(s: string) { '\0' in s }

  lemma PrintHunkParts(mark: string, c: Cut<string>)
    ensures PrintAll(mark, Hunk(c)) ==
            "" + PrintAll(mark, Tagged(' ', c.before)) + PrintAll(mark, Tagged('-', c.gone))
               + PrintAll(mark, Tagged('+', c.come)) + PrintAll(mark, Tagged(' ', c.after))
  {
    var before, gone := Tagged(' ', c.before), Tagged('-', c.gone);
    var come, after := Tagged('+', c.come), Tagged(' ', c.after);
    PrintAllAppend(mark, before, gone + (come + after));
    PrintAllAppend(mark, gone, come + after);
    PrintAllAppend(mark, come, after);
    Associates(PrintAll(mark, gone), PrintAll(mark, come), PrintAll(mark, after));
    assert "" + PrintAll(mark, before) == PrintAll(mark, before);
    Associates(PrintAll(mark, before), PrintAll(mark, gone), PrintAll(mark, come) + PrintAll(mark, after));
    Associates(PrintAll(mark, before) + PrintAll(mark, gone), PrintAll(mark, come), PrintAll(mark, after));
  }

  /** The four loops over the two line lists. */
  method PrintBody(mark: string, a: seq<string>, b: seq<string>, prefix: nat, suffix: nat, start: nat, newEnd: nat,
                   ghost c: Cut<string>)
    returns (out: string)
    requires prefix + suffix <= |a| && prefix + suffix <= |b| && start <= prefix && |b| - suffix <= newEnd <= |b|
    requires c.before == a[start..prefix] && c.gone == a[prefix..|a| - suffix]
    requires c.come == b[prefix..|b| - suffix] && c.after == b[|b| - suffix..newEnd]
    ensures out == PrintAll(mark, Hunk(c))
  {
    out := PrintDiffLines(mark, ' ', a, start, prefix, "");
    out := PrintDiffLines(mark, '-', a, prefix, |a| - suffix, out);
    out := PrintDiffLines(mark, '+', b, prefix, |b| - suffix, out);
    out := PrintDiffLines(mark, ' ', b, |b| - suffix, newEnd, out);
    PrintHunkParts(mark, c);
  }

  lemma CutCounts(a: seq<string>, b: seq<string>, prefix: nat, suffix: nat)
    requires prefix + suffix <= |a| && prefix + suffix <= |b|
    ensures var c := CutAt(a, b, prefix, suffix);
            && Count(Hunk(c), '-') == Min(|a|, |a| - suffix + 3) - ContextStart(prefix)
            && Count(Hunk(c), '+') == Min(|b|, |b| - suffix + 3) - ContextStart(prefix)
  {
    HunkCounts(CutAt(a, b, prefix, suffix), '-');
    HunkCounts(CutAt(a, b, prefix, suffix), '+');
  }

  lemma CutFacts(a: seq<string>, b: seq<string>, prefix: nat, suffix: nat)
    requires IsWindow(a, b, prefix, suffix)
    ensures var c := CutAt(a, b, prefix, suffix);
            && OldSide(c) == a && NewSide(c) == b && IsTight(c)
            && Count(Hunk(c), '-') == Min(|a|, |a| - suffix + 3) - ContextStart(prefix)
            && Count(Hunk(c), '+') == Min(|b|, |b| - suffix + 3) - ContextStart(prefix)
  {
    WindowCuts(a, b, prefix, suffix);
    CutIsTight(a, b, prefix, suffix);
    CutCounts(a, b, prefix, suffix);
  }

  method PrintHunk(mark: string, a: seq<string>, b: seq<string>) returns (r: Report, ghost c: Cut<string>)
    ensures OldSide(c) == a && NewSide(c) == b && IsTight(c)
    ensures r == Detailed(|c.head| + 1, Count(Hunk(c), '-'), |c.head| + 1, Count(Hunk(c), '+'), PrintAll(mark, Hunk(c)))
  {
    var prefix, suffix := FindWindow(a, b);
    var contextStart := ContextStart(prefix);
    var oldEnd, newEnd := Min(|a|, |a| - suffix + 3), Min(|b|, |b| - suffix + 3);
    c := CutAt(a, b, prefix, suffix);
    var body := PrintBody(mark, a, b, prefix, suffix, contextStart, newEnd, c);
    CutFacts(a, b, prefix, suffix);
    r := Detailed(contextStart + 1, oldEnd - contextStart, contextStart + 1, newEnd - contextStart, body);
  }

  /** A reader who has only the old text and the printed hunk gets the new text. */
  ghost predicate Reads(from: string, r: Report, to: string)
    requires r.Detailed?
  {
    var hunk := Parse(NO_NEWLINE, Lines(r.body));
    && r.oldStart > 0 && r.oldStart == r.newStart
    && r.oldCount == Count(hunk, '-') && r.newCount == Count(hunk, '+')
    && Patch(Lines(from), r.oldStart - 1, hunk) == Some(Lines(to))
  }

  lemma ReaderGetsNewText(from: string, to: string, r: Report, c: Cut<string>)
    requires OldSide(c) == Lines(from) && NewSide(c) == Lines(to)
    requires r == Detailed(|c.head| + 1, Count(Hunk(c), '-'), |c.head| + 1, Count(Hunk(c), '+'),
                           PrintAll(NO_NEWLINE, Hunk(c)))
    ensures Reads(from, r, to)
  {
    LinesSplit(from);
    LinesSplit(to);
    HunkIsPrintable(c);
    ParsePrinted(NO_NEWLINE, Hunk(c));
    HunkApplies(c);
  }

  method PrintDiff(from: string, to: string) returns (changed: bool, r: Report)
    ensures changed <==> from != to
    ensures r == Unchanged <==> from == to
    ensures r == Binary <==> from != to && ('\0' in from || '\0' in to)
    ensures r == TooLarge <==>
              && from != to && '\0' !in from && '\0' !in to
              && (|from| > DETAILED_DIFF_LIMIT || |to| > DETAILED_DIFF_LIMIT)
    ensures r.Detailed? ==> Reads(from, r, to)
  {
    changed := from != to;
    if !changed {
      return changed, Unchanged;
    }
    if HasNul(from) || HasNul(to) {
      return changed, Binary;
    }
    if |from| > DETAILED_DIFF_LIMIT || |to| > DETAILED_DIFF_LIMIT {
      return changed, TooLarge;
    }
    var a := SplitLines(from);
    var b := SplitLines(to);
    ghost var c;
    r, c := PrintHunk(NO_NEWLINE, a, b);
    ReaderGetsNewText(from, to, r, c);
  }
}
