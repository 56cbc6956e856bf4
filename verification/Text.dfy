/** The string operations annotations and option paths go through: Split, Join and TrimSpace of Go's strings package. */
module Text {

  predicate Free(s: string, sep: char) {
    forall i | 0 <= i < |s| :: s[i] != sep
  }

  function IndexFrom(s: string, sep: char, n: nat): (i: nat)
    requires n <= |s|
    ensures n <= i <= |s| && (i < |s| ==> s[i] == sep)
    ensures forall j | n <= j < i :: s[j] != sep
    decreases |s| - n
  {
    if n == |s| || s[n] == sep then n else IndexFrom(s, sep, n + 1)
  }

  /** The position of the first separator, or the length. */
  function IndexOf(s: string, sep: char): (i: nat)
    ensures i <= |s| && (i < |s| ==> s[i] == sep)
    ensures forall j | 0 <= j < i :: s[j] != sep
  {
    IndexFrom(s, sep, 0)
  }

  lemma IndexOfIs(s: string, sep: char, i: nat)
    requires i <= |s| && (i < |s| ==> s[i] == sep) && forall j | 0 <= j < i :: s[j] != sep
    ensures IndexOf(s, sep) == i
  {}

  /** The parts of cur + s, where cur is the part being read. */
  function SplitAfter(cur: string, s: string, sep: char): (parts: seq<string>)
    ensures parts != []
    decreases |s|
  {
    if s == [] then [cur]
    else if s[0] == sep then [cur] + SplitAfter("", s[1..], sep)
    else SplitAfter(cur + [s[0]], s[1..], sep)
  }

  /** strings.Split for a one-character separator: never empty, one part more than there are separators. */
  function Split(s: string, sep: char): (parts: seq<string>)
    ensures parts != []
  {
    SplitAfter("", s, sep)
  }

  /** strings.Join for a one-character separator. */
  function Join(parts: seq<string>, sep: char): string {
    if parts == [] then ""
    else if |parts| == 1 then parts[0]
    else parts[0] + [sep] + Join(parts[1..], sep)
  }

  lemma JoinCons(a: string, parts: seq<string>, sep: char)
    requires parts != []
    ensures Join([a] + parts, sep) == a + [sep] + Join(parts, sep)
  {
    assert ([a] + parts)[1..] == parts;
  }

  lemma MoveFirst(cur: string, s: string)
    requires s != []
    ensures cur + [s[0]] + s[1..] == cur + s
  {}

  lemma {:induction false} JoinSplitAfter(cur: string, s: string, sep: char)
    ensures Join(SplitAfter(cur, s, sep), sep) == cur + s
    decreases |s|
  {
    if s == [] {
      assert cur + s == cur;
    } else {
      MoveFirst(cur, s);
      if s[0] == sep {
        JoinSplitAfter("", s[1..], sep);
        JoinCons(cur, SplitAfter("", s[1..], sep), sep);
        assert "" + s[1..] == s[1..];
      } else {
        JoinSplitAfter(cur + [s[0]], s[1..], sep);
      }
    }
  }

  /** Splitting loses nothing: joining the parts gives the string back. */
  lemma JoinSplit(s: string, sep: char)
    ensures Join(Split(s, sep), sep) == s
  {
    JoinSplitAfter("", s, sep);
    assert "" + s == s;
  }

  lemma {:induction false} SplitAfterParts(cur: string, s: string, sep: char)
    requires Free(cur, sep)
    ensures forall k | 0 <= k < |SplitAfter(cur, s, sep)| :: Free(SplitAfter(cur, s, sep)[k], sep)
    decreases |s|
  {
    if s != [] {
      SplitAfterParts(if s[0] == sep then "" else cur + [s[0]], s[1..], sep);
    }
  }

  lemma SplitParts(s: string, sep: char)
    ensures forall k | 0 <= k < |Split(s, sep)| :: Free(Split(s, sep)[k], sep)
  {
    SplitAfterParts("", s, sep);
  }

  lemma {:induction false} SplitAfterFree(cur: string, s: string, sep: char)
    requires Free(s, sep)
    ensures SplitAfter(cur, s, sep) == [cur + s]
    decreases |s|
  {
    if s == [] {
      assert cur + s == cur;
    } else {
      SplitAfterFree(cur + [s[0]], s[1..], sep);
      MoveFirst(cur, s);
    }
  }

  lemma SplitFree(s: string, sep: char)
    requires Free(s, sep)
    ensures Split(s, sep) == [s]
  {
    SplitAfterFree("", s, sep);
    assert "" + s == s;
  }

  lemma TailAround(s: string, t: string, sep: char)
    ensures s == [] ==> (s + [sep] + t)[0] == sep && (s + [sep] + t)[1..] == t
    ensures s != [] ==> (s + [sep] + t)[0] == s[0] && (s + [sep] + t)[1..] == s[1..] + [sep] + t
  {}

  lemma ConsAppend(a: string, x: seq<string>, y: seq<string>)
    ensures [a] + (x + y) == [a] + x + y
  {}

  lemma {:induction false} SplitAfterConcat(cur: string, s: string, t: string, sep: char)
    ensures SplitAfter(cur, s + [sep] + t, sep) == SplitAfter(cur, s, sep) + SplitAfter("", t, sep)
    decreases |s|
  {
    TailAround(s, t, sep);
    if s != [] {
      if s[0] == sep {
        SplitAfterConcat("", s[1..], t, sep);
        ConsAppend(cur, SplitAfter("", s[1..], sep), SplitAfter("", t, sep));
      } else {
        SplitAfterConcat(cur + [s[0]], s[1..], t, sep);
      }
    }
  }

  /** A separator splits independently on both sides. */
  lemma SplitConcat(s: string, t: string, sep: char)
    ensures Split(s + [sep] + t, sep) == Split(s, sep) + Split(t, sep)
  {
    SplitAfterConcat("", s, t, sep);
  }

  /** Splitting undoes joining when no part has the separator in it. */
  lemma {:induction false} SplitJoined(parts: seq<string>, sep: char)
    requires parts != [] && forall i | 0 <= i < |parts| :: Free(parts[i], sep)
    ensures Split(Join(parts, sep), sep) == parts
  {
    SplitFree(parts[0], sep);
    if |parts| > 1 {
      SplitJoined(parts[1..], sep);
      SplitConcat(parts[0], Join(parts[1..], sep), sep);
    }
  }

  /** unicode.IsSpace, the class strings.TrimSpace removes. */
  predicate IsSpace(c: char) {
    var u := c as int;
    || 9 <= u <= 13 || u == 32 || u == 0x85 || u == 0xA0 || u == 0x1680 || 0x2000 <= u <= 0x200a
    || u == 0x2028 || u == 0x2029 || u == 0x202f || u == 0x205f || u == 0x3000
  }

  /** Among the ASCII characters: blank, tab, newline, vertical tab, form feed and carriage return. */
  lemma AsciiSpaces(c: char)
    requires c as int < 128
    ensures IsSpace(c) <==> c in {' ', '\t', '\n', '\U{0B}', '\U{0C}', '\r'}
  {}

  predicate Trimmed(s: string) {
    s == [] || (!IsSpace(s[0]) && !IsSpace(s[|s| - 1]))
  }

  function SkipLeft(s: string, i: nat): (j: nat)
    requires i <= |s|
    ensures i <= j <= |s|
    ensures forall k | i <= k < j :: IsSpace(s[k])
    ensures j < |s| ==> !IsSpace(s[j])
    decreases |s| - i
  {
    if i < |s| && IsSpace(s[i]) then SkipLeft(s, i + 1) else i
  }

  function SkipRight(s: string, i: nat, j: nat): (k: nat)
    requires i <= j <= |s|
    ensures i <= k <= j
    ensures forall n | k <= n < j :: IsSpace(s[n])
    ensures i < k ==> !IsSpace(s[k - 1])
  {
    if i < j && IsSpace(s[j - 1]) then SkipRight(s, i, j - 1) else j
  }

  /** TrimSpace removes the white space at both ends and nothing else. */
  function TrimSpace(s: string): (t: string)
    ensures Trimmed(t)
    ensures Trimmed(s) ==> t == s
    ensures exists i, j | 0 <= i <= j <= |s| ::
      t == s[i..j] && forall k | 0 <= k < i || j <= k < |s| :: IsSpace(s[k])
    ensures forall sep | Free(s, sep) :: Free(t, sep)
  {
    var i := SkipLeft(s, 0);
    s[i..SkipRight(s, i, |s|)]
  }
}
