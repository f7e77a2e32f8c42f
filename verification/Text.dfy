/** The string operations that the parsers use, on sequences of characters. */
module Text {

  /** The characters that `str.isspace`, `strip` and `split` take for whitespace. */
  predicate IsSpace(c: char) {
    || '\t' <= c <= '\r'
    || '\U{1c}' <= c <= ' '
    || c == '\U{85}' || c == '\U{a0}' || c == '\U{1680}'
    || '\U{2000}' <= c <= '\U{200a}'
    || c == '\U{2028}' || c == '\U{2029}' || c == '\U{202f}' || c == '\U{205f}' || c == '\U{3000}'
  }

  /** All of them, one by one. */
  const WHITESPACE :=
    "\t\n\U{b}\U{c}\r\U{1c}\U{1d}\U{1e}\U{1f} \U{85}\U{a0}\U{1680}" +
    "\U{2000}\U{2001}\U{2002}\U{2003}\U{2004}\U{2005}\U{2006}\U{2007}\U{2008}\U{2009}\U{200a}" +
    "\U{2028}\U{2029}\U{202f}\U{205f}\U{3000}"

  lemma SpacesAreListed(c: char)
    ensures IsSpace(c) <==> c in WHITESPACE
  {
  }

  function StripLeft(s: string): string {
    if s != "" && IsSpace(s[0]) then StripLeft(s[1..]) else s
  }

  function StripRight(s: string): string {
    if s != "" && IsSpace(s[|s| - 1]) then StripRight(s[..|s| - 1]) else s
  }

  function Strip(s: string): string {
    StripRight(StripLeft(s))
  }

  function SplitOn(s: string, c: char): (r: seq<string>)
    ensures |r| > 0
    ensures forall k :: 0 <= k < |r| ==> c !in r[k]
  {
    if s == "" then [""]
    else
      var rest := SplitOn(s[1..], c);
      InFront(s[0], c, rest)
  }

  /** One more character in front of the pieces, which may be the separator c. */
  function InFront(x: char, c: char, pieces: seq<string>): (r: seq<string>)
    requires pieces != []
    ensures r != [] && ((forall k :: 0 <= k < |pieces| ==> c !in pieces[k]) ==> forall k :: 0 <= k < |r| ==> c !in r[k])
  {
    if x == c then [""] + pieces else [[x] + pieces[0]] + pieces[1..]
  }

  function Join(parts: seq<string>, separator: string): string {
    if parts == [] then ""
    else if |parts| == 1 then parts[0]
    else parts[0] + separator + Join(parts[1..], separator)
  }

  predicate Contains(s: string, part: string) {
    part <= s || (s != "" && Contains(s[1..], part))
  }

  /** Splits at the first occurrence of the separator; without one, everything is in the first component. */
  function Partition(s: string, separator: string): (string, string, string) {
    if separator <= s then ("", separator, s[|separator|..])
    else if s == "" then ("", "", "")
    else
      var (head, found, tail) := Partition(s[1..], separator);
      ([s[0]] + head, found, tail)
  }

  lemma {:induction false} SplitWithoutSeparator(s: string, c: char)
    requires c !in s
    ensures SplitOn(s, c) == [s]
  {
    if s == "" {
    } else {
      SplitWithoutSeparator(s[1..], c);
      assert [s[0]] + s[1..] == s;
    }
  }

  lemma InFrontOfConcatenation(x: char, c: char, a: seq<string>, b: seq<string>)
    requires a != []
    ensures InFront(x, c, a + b) == InFront(x, c, a) + b
  {
    if x == c {
      assert [""] + (a + b) == [""] + a + b;
    } else {
      assert (a + b)[1..] == a[1..] + b;
      assert [[x] + a[0]] + (a[1..] + b) == [[x] + a[0]] + a[1..] + b;
    }
  }

  lemma {:induction false} SplitOfConcatenation(a: string, c: char, b: string)
    ensures SplitOn(a + [c] + b, c) == SplitOn(a, c) + SplitOn(b, c)
  {
    var s := a + [c] + b;
    if a == "" {
      assert s[1..] == b;
    } else {
      var rest, last := SplitOn(a[1..], c), SplitOn(b, c);
      SplitOfConcatenation(a[1..], c, b);
      assert s[1..] == a[1..] + [c] + b;
      InFrontOfConcatenation(s[0], c, rest, last);
    }
  }

  lemma StripKeeps(s: string)
    requires s != "" && !IsSpace(s[0]) && !IsSpace(s[|s| - 1])
    ensures Strip(s) == s && Strip(" " + s) == s
  {
    assert (" " + s)[1..] == s;
  }

  lemma {:induction false} StripLeftIsSuffix(s: string)
    ensures var r := StripLeft(s);
            && (r == "" || !IsSpace(r[0]))
            && |r| <= |s| && r == s[|s| - |r|..]
  {
    if s == "" || !IsSpace(s[0]) {
    } else {
      StripLeftIsSuffix(s[1..]);
    }
  }

  lemma {:induction false} StripRightIsPrefix(s: string)
    ensures StripRight(s) <= s
  {
    if s == "" || !IsSpace(s[|s| - 1]) {
    } else {
      StripRightIsPrefix(s[..|s| - 1]);
    }
  }

  predicate AllSpaces(s: string) {
    forall k :: 0 <= k < |s| ==> IsSpace(s[k])
  }

  lemma {:induction false} StripLeftIsEmpty(s: string)
    ensures StripLeft(s) == "" <==> AllSpaces(s)
  {
    if s == "" || !IsSpace(s[0]) {
    } else {
      StripLeftIsEmpty(s[1..]);
      if AllSpaces(s[1..]) {
        assert s == [s[0]] + s[1..];
      }
    }
  }

  lemma {:induction false} StripRightIsEmpty(s: string)
    ensures StripRight(s) == "" <==> AllSpaces(s)
  {
    if s == "" || !IsSpace(s[|s| - 1]) {
    } else {
      StripRightIsEmpty(s[..|s| - 1]);
      if AllSpaces(s[..|s| - 1]) {
        assert s == s[..|s| - 1] + [s[|s| - 1]];
      }
    }
  }

  /** Stripping leaves nothing exactly of whitespace. */
  lemma StripIsEmpty(s: string)
    ensures Strip(s) == "" <==> AllSpaces(s)
  {
    StripLeftIsEmpty(s);
    StripLeftIsSuffix(s);
    StripRightIsEmpty(StripLeft(s));
    SpacesOnly(StripLeft(s));
  }

  lemma SpacesOnly(s: string)
    requires s == "" || !IsSpace(s[0])
    ensures AllSpaces(s) <==> s == ""
  {
  }

  lemma {:induction false} StripLeftTakes(a: string, s: string)
    requires AllSpaces(a) && (s == "" || !IsSpace(s[0]))
    ensures StripLeft(a + s) == s
  {
    if a == "" {
      assert a + s == s;
    } else {
      StripLeftTakes(a[1..], s);
      assert (a + s)[1..] == a[1..] + s;
    }
  }

  lemma {:induction false} StripRightTakes(s: string, b: string)
    requires AllSpaces(b) && (s == "" || !IsSpace(s[|s| - 1]))
    ensures StripRight(s + b) == s
  {
    if b == "" {
      assert s + b == s;
    } else {
      StripRightTakes(s, b[..|b| - 1]);
      assert (s + b)[..|s + b| - 1] == s + b[..|b| - 1];
    }
  }

  /** Stripping takes exactly the whitespace around a text. */
  lemma StripTakesSpaces(a: string, s: string, b: string)
    requires AllSpaces(a) && AllSpaces(b) && s != "" && !IsSpace(s[0]) && !IsSpace(s[|s| - 1])
    ensures Strip(a + s + b) == s
  {
    assert a + s + b == a + (s + b);
    StripLeftTakes(a, s + b);
    StripRightTakes(s, b);
  }

  /** Stripping leaves no whitespace in front, and only takes characters away. */
  lemma StripIsInside(s: string)
    ensures var r := Strip(s);
            && (r != "" ==> !IsSpace(r[0]))
            && forall c :: c in r ==> c in s
  {
    StripLeftIsSuffix(s);
    StripRightIsPrefix(StripLeft(s));
  }

  /** The head of a partition is a prefix that does not contain the separator. */
  lemma {:induction false} PartitionHead(s: string, separator: string)
    requires separator != ""
    ensures Partition(s, separator).0 <= s
    ensures !Contains(Partition(s, separator).0, separator)
  {
    if separator <= s || s == "" {
    } else {
      PartitionHead(s[1..], separator);
      var head := Partition(s[1..], separator).0;
      assert ([s[0]] + head)[1..] == head;
      assert [s[0]] + head <= s;
    }
  }

  lemma {:induction false} TooShortToContain(s: string, part: string)
    requires |s| < |part|
    ensures !Contains(s, part)
  {
    if s == "" {
    } else {
      TooShortToContain(s[1..], part);
    }
  }
}
