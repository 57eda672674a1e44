/**
  Java's String as the core uses it: a sequence of UTF-16 code units, so that
  length(), substring(), trim(), lines() and joining count and cut exactly where
  the Java library does.
 */
module JavaString {

  /** One UTF-16 code unit, the element of a Java String. */
  newtype CodeUnit = u: int | 0 <= u < 0x1_0000

  type JString = seq<CodeUnit>

  const SPACE: CodeUnit := 0x20
  const LF: CodeUnit := 0x0A
  const CR: CodeUnit := 0x0D

  /** U+FFFD REPLACEMENT CHARACTER, the code unit Lit uses for a character outside the Basic Multilingual Plane. */
  const REPLACEMENT: CodeUnit := 0xFFFD

  /**
    The Java string literal with the same text as `s`. Every literal of this model
    lies in the Basic Multilingual Plane, where a character is one code unit, so
    the REPLACEMENT branch is never taken; it only keeps Lit total (Java itself
    would write such a character as a surrogate pair).
   */
  function Lit(s: string): JString {
    seq(|s|, i requires 0 <= i < |s| => if s[i] as int < 0x1_0000 then s[i] as int as CodeUnit else REPLACEMENT)
  }

  lemma LitConcat(a: string, b: string)
    ensures Lit(a + b) == Lit(a) + Lit(b)
  {
  }

  // ---------------------------------------------------------------------------
  // String.trim(): drops every leading and trailing code unit at most U+0020.
  // ---------------------------------------------------------------------------

  /** Every code unit of `s` is one that trim() removes. */
  predicate IsBlank(s: JString) {
    forall i | 0 <= i < |s| :: s[i] <= SPACE
  }

  /** trim()'s forward scan: the first index from `st` on whose code unit is above U+0020, or |s|. */
  function SkipBlanks(s: JString, st: nat): (r: nat)
    requires st <= |s|
    ensures st <= r <= |s|
    decreases |s| - st
  {
    if st < |s| && s[st] <= SPACE then SkipBlanks(s, st + 1) else st
  }

  /** The scan passes only blanks and stops at a code unit above U+0020 or at the end. */
  lemma {:induction false} SkipBlanksSpec(s: JString, st: nat)
    requires st <= |s|
    ensures forall i | st <= i < SkipBlanks(s, st) :: s[i] <= SPACE
    ensures SkipBlanks(s, st) < |s| ==> s[SkipBlanks(s, st)] > SPACE
    decreases |s| - st
  {
    if st < |s| && s[st] <= SPACE {
      SkipBlanksSpec(s, st + 1);
    }
  }

  /** trim()'s backward scan: shortens `len` while the code unit before it is blank, never below `st`. */
  function DropTrailingBlanks(s: JString, st: nat, len: nat): (r: nat)
    requires st <= len <= |s|
    ensures st <= r <= len
    decreases len
  {
    if st < len && s[len - 1] <= SPACE then DropTrailingBlanks(s, st, len - 1) else len
  }

  /** The backward scan passes only blanks and stops after a code unit above U+0020 or at `st`. */
  lemma {:induction false} DropTrailingBlanksSpec(s: JString, st: nat, len: nat)
    requires st <= len <= |s|
    ensures forall i | DropTrailingBlanks(s, st, len) <= i < len :: s[i] <= SPACE
    ensures st < DropTrailingBlanks(s, st, len) ==> s[DropTrailingBlanks(s, st, len) - 1] > SPACE
    decreases len
  {
    if st < len && s[len - 1] <= SPACE {
      DropTrailingBlanksSpec(s, st, len - 1);
    }
  }

  /** How many code units trim() removes at the front. */
  function LeadingBlanks(s: JString): nat {
    SkipBlanks(s, 0)
  }

  /**
    String.trim(): what is left between the leading and the trailing blanks.
    It is never longer than `s` and, unless empty, begins and ends with a code
    unit above U+0020 (TrimSlice says which slice of `s` it is).
   */
  function Trim(s: JString): (r: JString)
    ensures |r| <= |s|
    ensures r != [] ==> r[0] > SPACE && r[|r| - 1] > SPACE
  {
    TrimBounds(s);
    s[LeadingBlanks(s)..DropTrailingBlanks(s, LeadingBlanks(s), |s|)]
  }

  /** trim() leaves nothing exactly when every code unit of `s` is at most U+0020. */
  lemma TrimEmptyIffBlank(s: JString)
    ensures Trim(s) == [] <==> IsBlank(s)
  {
    TrimBounds(s);
  }

  /** Where trim() cuts: after the leading blanks and before the trailing ones. */
  lemma TrimBounds(s: JString)
    ensures var start := LeadingBlanks(s);
      var end := DropTrailingBlanks(s, start, |s|);
      && (forall i | 0 <= i < start :: s[i] <= SPACE)
      && (forall i | end <= i < |s| :: s[i] <= SPACE)
      && (start < end ==> s[start] > SPACE && s[end - 1] > SPACE)
      && (start == end <==> IsBlank(s))
  {
    SkipBlanksSpec(s, 0);
    DropTrailingBlanksSpec(s, LeadingBlanks(s), |s|);
  }

  /**
    String.trim() returns the slice of `s` from its first code unit above U+0020
    to its last one; everything it cuts off on either side is at most U+0020.
   */
  lemma TrimSlice(s: JString)
    ensures var r := Trim(s);
      var start := LeadingBlanks(s);
      && start + |r| <= |s|
      && r == s[start..start + |r|]
      && (forall i | 0 <= i < start :: s[i] <= SPACE)
      && (forall i | start + |r| <= i < |s| :: s[i] <= SPACE)
      && (r != [] ==> r[0] > SPACE && r[|r| - 1] > SPACE)
      && (start < |s| ==> s[start] > SPACE)
  {
    TrimBounds(s);
    SkipBlanksSpec(s, 0);
  }

  // ---------------------------------------------------------------------------
  // String.lines(): lines end at "\n", "\r" or "\r\n"; a terminator at the very
  // end does not start another (empty) line, and "" has no lines at all.
  // Collectors.joining(sep): the parts with `sep` between them, "" for none.
  // ---------------------------------------------------------------------------

  predicate IsTerminator(c: CodeUnit) {
    c == LF || c == CR
  }

  predicate NoTerminator(s: JString) {
    forall i | 0 <= i < |s| :: !IsTerminator(s[i])
  }

  /** Index of the first line terminator of `s` at or after `from`, or |s| when there is none. */
  function LineEnd(s: JString, from: nat): (i: nat)
    requires from <= |s|
    ensures from <= i <= |s|
    ensures i < |s| ==> IsTerminator(s[i])
    decreases |s| - from
  {
    if from == |s| || IsTerminator(s[from]) then from else LineEnd(s, from + 1)
  }

  /** The scan for a line's end passes no terminator. */
  lemma {:induction false} LineEndSpec(s: JString, from: nat)
    requires from <= |s|
    ensures forall j | from <= j < LineEnd(s, from) :: !IsTerminator(s[j])
    decreases |s| - from
  {
    if from < |s| && !IsTerminator(s[from]) {
      LineEndSpec(s, from + 1);
    }
  }

  /** Where the line after the one ending at `i` begins: past "\r\n" as one terminator. */
  function NextLineStart(s: JString, i: nat): (j: nat)
    requires i <= |s|
    ensures i < j <= |s| || j == i == |s|
  {
    if i == |s| then i
    else if s[i] == CR && i + 1 < |s| && s[i + 1] == LF then i + 2
    else i + 1
  }

  /** String.lines(), collected into a list. */
  function Lines(s: JString): (ls: seq<JString>)
    ensures ls == [] <==> s == []
    decreases |s|
  {
    if s == [] then
      []
    else
      var i := LineEnd(s, 0);
      [s[..i]] + Lines(s[NextLineStart(s, i)..])
  }

  /** No line that lines() returns contains a terminator. */
  lemma {:induction false} LinesNoTerminator(s: JString)
    ensures forall k | 0 <= k < |Lines(s)| :: NoTerminator(Lines(s)[k])
    decreases |s|
  {
    if s != [] {
      var i := LineEnd(s, 0);
      LineEndSpec(s, 0);
      assert NoTerminator(s[..i]);
      LinesNoTerminator(s[NextLineStart(s, i)..]);
    }
  }

  /** Collectors.joining(sep): the parts in order with `sep` between them; it starts with the first part. */
  function Join(parts: seq<JString>, sep: JString): (r: JString)
    ensures |parts| > 0 ==> parts[0] <= r
  {
    if |parts| == 0 then []
    else if |parts| == 1 then parts[0]
    else parts[0] + sep + Join(parts[1..], sep)
  }

  /** A joined text ends with the last part. */
  lemma {:induction false} JoinEndsWithLast(parts: seq<JString>, sep: JString)
    requires |parts| > 0
    ensures |Join(parts, sep)| >= |parts[|parts| - 1]|
    ensures Join(parts, sep)[|Join(parts, sep)| - |parts[|parts| - 1]|..] == parts[|parts| - 1]
  {
    if |parts| > 1 {
      JoinEndsWithLast(parts[1..], sep);
      var rest := Join(parts[1..], sep);
      var last := parts[|parts| - 1];
      assert Join(parts, sep) == parts[0] + sep + rest;
      assert (parts[0] + sep + rest)[|parts[0] + sep + rest| - |last|..] == rest[|rest| - |last|..];
    }
  }

  /** No "\r" anywhere in `s`. */
  predicate NoCr(s: JString) {
    forall i | 0 <= i < |s| :: s[i] != CR
  }

  /** Joining parts without "\r" by a separator without "\r" gives a text without "\r". */
  lemma {:induction false} NoCrInJoin(parts: seq<JString>, sep: JString)
    requires forall k | 0 <= k < |parts| :: NoCr(parts[k])
    requires NoCr(sep)
    ensures NoCr(Join(parts, sep))
  {
    if |parts| > 1 {
      NoCrInJoin(parts[1..], sep);
      var rest := Join(parts[1..], sep);
      assert Join(parts, sep) == parts[0] + sep + rest;
      assert NoCr(parts[0]);
      forall i | 0 <= i < |parts[0] + sep + rest| ensures (parts[0] + sep + rest)[i] != CR {
        if i < |parts[0]| {
          assert (parts[0] + sep + rest)[i] == parts[0][i];
        } else if i < |parts[0]| + |sep| {
          assert (parts[0] + sep + rest)[i] == sep[i - |parts[0]|];
        } else {
          assert (parts[0] + sep + rest)[i] == rest[i - |parts[0]| - |sep|];
        }
      }
    }
  }

  /** A line followed by a text that opens with a terminator ends where that text starts. */
  lemma LineEndBefore(l: JString, after: JString)
    requires NoTerminator(l)
    requires after != [] && IsTerminator(after[0])
    ensures LineEnd(l + after, 0) == |l|
    ensures (l + after)[..|l|] == l
  {
    var s := l + after;
    LineEndSpec(s, 0);
    assert s[|l|] == after[0];
    forall j | 0 <= j < |l| ensures !IsTerminator(s[j]) {
      assert s[j] == l[j];
    }
  }

  /** A terminator-free line followed by "\n" is the first line, and the rest splits on its own. */
  lemma LinesCons(l: JString, rest: JString)
    requires NoTerminator(l)
    ensures Lines(l + [LF] + rest) == [l] + Lines(rest)
  {
    var s := l + [LF] + rest;
    assert s == l + ([LF] + rest);
    LineEndBefore(l, [LF] + rest);
    assert s[|l| + 1..] == rest;
  }

  /** A terminator-free line followed by a lone "\r" is the first line, and the rest splits on its own. */
  lemma LinesConsCr(l: JString, rest: JString)
    requires NoTerminator(l)
    requires rest == [] || rest[0] != LF
    ensures Lines(l + [CR] + rest) == [l] + Lines(rest)
  {
    var s := l + [CR] + rest;
    assert s == l + ([CR] + rest);
    LineEndBefore(l, [CR] + rest);
    assert |l| + 1 < |s| ==> s[|l| + 1] == rest[0];
    assert NextLineStart(s, |l|) == |l| + 1;
    assert s[|l| + 1..] == rest;
  }

  /** A terminator-free line followed by "\r\n" is the first line: the pair is one terminator. */
  lemma LinesConsCrLf(l: JString, rest: JString)
    requires NoTerminator(l)
    ensures Lines(l + [CR, LF] + rest) == [l] + Lines(rest)
  {
    var s := l + [CR, LF] + rest;
    assert s == l + ([CR, LF] + rest);
    LineEndBefore(l, [CR, LF] + rest);
    assert s[|l|] == CR && s[|l| + 1] == LF;
    assert NextLineStart(s, |l|) == |l| + 2;
    assert s[|l| + 2..] == rest;
  }

  /** A terminator-free, non-empty text is a single line. */
  lemma LinesSingle(l: JString)
    requires l != [] && NoTerminator(l)
    ensures Lines(l) == [l]
  {
    assert LineEnd(l, 0) == |l|;
    assert l[..|l|] == l;
    assert Lines(l[|l|..]) == [];
  }

  /**
    Joining terminator-free lines with "\n" and splitting the result again gives
    back the same lines, as long as the last one is not empty (a trailing empty
    line leaves no trace in the joined text).
   */
  lemma {:induction false} LinesOfJoin(ls: seq<JString>)
    requires forall k | 0 <= k < |ls| :: NoTerminator(ls[k])
    requires ls == [] || ls[|ls| - 1] != []
    ensures Lines(Join(ls, [LF])) == ls
  {
    if |ls| == 1 {
      LinesSingle(ls[0]);
    } else if |ls| > 1 {
      var rest := Join(ls[1..], [LF]);
      assert Join(ls, [LF]) == ls[0] + [LF] + rest;
      LinesCons(ls[0], rest);
      LinesOfJoin(ls[1..]);
      assert ls == [ls[0]] + ls[1..];
    }
  }

  /**
    Splitting a text that uses only "\n" as terminator and does not end in one,
    then joining the lines with "\n", gives back the text.
   */
  lemma {:induction false} JoinOfLines(s: JString)
    requires NoCr(s)
    requires s == [] || s[|s| - 1] != LF
    ensures Join(Lines(s), [LF]) == s
    decreases |s|
  {
    if s != [] {
      var i := LineEnd(s, 0);
      if i == |s| {
        assert s[..i] == s;
      } else {
        var rest := s[i + 1..];
        assert s[i] == LF;
        assert rest != [] && rest[|rest| - 1] == s[|s| - 1];
        JoinOfLines(rest);
        JoinCons(s[..i], Lines(rest), [LF]);
        assert s == s[..i] + [LF] + rest;
      }
    }
  }

  lemma JoinCons(head: JString, tail: seq<JString>, sep: JString)
    requires tail != []
    ensures Join([head] + tail, sep) == head + sep + Join(tail, sep)
  {
    assert ([head] + tail)[1..] == tail;
  }

  /** "a\r\nb\rc\n" splits into "a", "b" and "c": all three terminators, and no trailing empty line. */
  lemma LinesExample()
    ensures Lines(Lit("a\r\nb\rc\n")) == [Lit("a"), Lit("b"), Lit("c")]
  {
    var s := Lit("a\r\nb\rc\n");
    assert s == [0x61, CR, LF, 0x62, CR, 0x63, LF];
    assert LineEnd(s, 0) == 1 by { assert LineEnd(s, 1) == 1; }
    assert NextLineStart(s, 1) == 3;
    var s1 := s[3..];
    assert LineEnd(s1, 0) == 1 by { assert LineEnd(s1, 1) == 1; }
    var s2 := s1[2..];
    assert LineEnd(s2, 0) == 1 by { assert LineEnd(s2, 1) == 1; }
    assert s2[2..] == [];
    assert Lines(s2) == [s2[..1]];
    assert Lines(s1) == [s1[..1]] + Lines(s2);
    assert Lines(s) == [s[..1]] + Lines(s1);
    assert Lit("a") == [0x61] && Lit("b") == [0x62] && Lit("c") == [0x63];
    assert s[..1] == [0x61] && s1[..1] == [0x62] && s2[..1] == [0x63];
  }
}
