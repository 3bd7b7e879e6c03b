/**
  The handful of `java.lang.String` operations the line codecs rely on,
  written as total functions over `seq<char>`: `replace` of one character by
  nothing, `trim`, `split(regex)` with its default limit of zero, and
  `split(regex, 2)`. Every separator used by the system is a single literal
  character, so a regular expression is modelled as that character.
*/
module Text {

  /** `String.trim` removes every leading and trailing character whose code is
      at most U+0020. */
  predicate IsBlank(ch: char) {
    ch <= ' '
  }

  /** A string `trim` leaves alone: empty, or not starting or ending blank. */
  predicate Trimmed(s: string) {
    |s| == 0 || (!IsBlank(s[0]) && !IsBlank(s[|s| - 1]))
  }

  /** Number of occurrences of `c` in `s`. */
  function Count(s: string, c: char): nat
  {
    if |s| == 0 then 0 else (if s[0] == c then 1 else 0) + Count(s[1..], c)
  }

  // ---------------------------------------------------------------------------
  // replace(c, "")

  /** `s.replace(c, "")`: every occurrence of `c` dropped, the rest kept in order. */
  function Remove(s: string, c: char): (r: string)
    ensures c !in r
    ensures |r| == |s| - Count(s, c)
    ensures forall ch :: ch in r ==> ch in s
  {
    if |s| == 0 then ""
    else if s[0] == c then Remove(s[1..], c)
    else [s[0]] + Remove(s[1..], c)
  }

  lemma {:induction false} RemoveAbsent(s: string, c: char)
    requires c !in s
    ensures Remove(s, c) == s
  {
    if |s| > 0 {
      RemoveAbsent(s[1..], c);
    }
  }

  /** Dropping one character leaves the occurrences of another alone. */
  lemma {:induction false} CountRemoveOther(s: string, c: char, d: char)
    requires c != d
    ensures Count(Remove(s, c), d) == Count(s, d)
  {
    if |s| > 0 {
      CountRemoveOther(s[1..], c, d);
      if s[0] != c {
        assert ([s[0]] + Remove(s[1..], c))[1..] == Remove(s[1..], c);
      }
    }
  }

  lemma {:induction false} RemoveAppend(a: string, b: string, c: char)
    ensures Remove(a + b, c) == Remove(a, c) + Remove(b, c)
  {
    if |a| == 0 {
      assert a + b == b;
    } else {
      assert (a + b)[1..] == a[1..] + b;
      RemoveAppend(a[1..], b, c);
    }
  }

  // ---------------------------------------------------------------------------
  // trim()

  /** Number of blank characters `trim` drops from the front of `s`. */
  function TrimFrom(s: string): (a: nat)
    ensures a <= |s|
    ensures a == |s| || !IsBlank(s[a])
    ensures forall i :: 0 <= i < a ==> IsBlank(s[i])
  {
    if |s| > 0 && IsBlank(s[0]) then 1 + TrimFrom(s[1..]) else 0
  }

  /** Length of `s` once its trailing blank characters are dropped. */
  function TrimTo(s: string): (b: nat)
    ensures b <= |s|
    ensures b == 0 || !IsBlank(s[b - 1])
    ensures forall i :: b <= i < |s| ==> IsBlank(s[i])
  {
    if |s| > 0 && IsBlank(s[|s| - 1]) then TrimTo(s[..|s| - 1]) else |s|
  }

  /** `String.trim`: the slice of `s` that neither starts nor ends blank,
      obtained by dropping blank characters only. A string of blanks alone
      trims to the empty string. */
  function Trim(s: string): (r: string)
    ensures Trimmed(r)
    ensures TrimFrom(s) + |r| <= |s| && r == s[TrimFrom(s)..TrimFrom(s) + |r|]
    ensures forall i :: 0 <= i < TrimFrom(s) ==> IsBlank(s[i])
    ensures forall i :: TrimFrom(s) + |r| <= i < |s| ==> IsBlank(s[i])
    ensures Trimmed(s) ==> r == s
  {
    var a := TrimFrom(s);
    var b := TrimTo(s);
    if a < b then s[a..b] else ""
  }

  lemma SliceChars(s: string, a: nat, b: nat)
    requires a <= b <= |s|
    ensures forall ch :: ch in s[a..b] ==> ch in s
  {
    forall ch | ch in s[a..b]
      ensures ch in s
    {
      var i :| 0 <= i < b - a && s[a..b][i] == ch;
      assert s[a + i] == ch;
    }
  }

  /** `trim` only drops characters. */
  lemma TrimChars(s: string)
    ensures forall ch :: ch in Trim(s) ==> ch in s
  {
    SliceChars(s, TrimFrom(s), TrimFrom(s) + |Trim(s)|);
  }

  // ---------------------------------------------------------------------------
  // split

  /** The inverse of splitting: the pieces with one `c` between neighbours. */
  function Join(parts: seq<string>, c: char): string
  {
    if |parts| == 0 then ""
    else if |parts| == 1 then parts[0]
    else parts[0] + [c] + Join(parts[1..], c)
  }

  /** Every piece between occurrences of `c`, empty ones included: the pieces
      are free of `c` and join back to `s`. */
  function SplitAll(s: string, c: char): (parts: seq<string>)
    ensures |parts| == Count(s, c) + 1
    ensures Join(parts, c) == s
    ensures forall k :: 0 <= k < |parts| ==> c !in parts[k]
  {
    if |s| == 0 then [""]
    else
      var rest := SplitAll(s[1..], c);
      if s[0] == c then
        assert ([""] + rest)[1..] == rest;
        assert s == [c] + s[1..];
        [""] + rest
      else
        var first := [s[0]] + rest[0];
        var parts := [first] + rest[1..];
        assert Join(parts, c) == s by {
          if |rest| == 1 {
            assert s == [s[0]] + s[1..];
          } else {
            assert parts[1..] == rest[1..];
            assert Join(rest, c) == rest[0] + [c] + Join(rest[1..], c);
            assert s == [s[0]] + s[1..];
          }
        }
        parts
  }

  lemma {:induction false} SplitAllAbsent(a: string, c: char)
    requires c !in a
    ensures SplitAll(a, c) == [a]
  {
    if |a| > 0 {
      SplitAllAbsent(a[1..], c);
      assert a == [a[0]] + a[1..];
    }
  }

  /** Splitting at the first separator peels off the piece before it. */
  lemma {:induction false} SplitAllCons(a: string, b: string, c: char)
    requires c !in a
    ensures SplitAll(a + [c] + b, c) == [a] + SplitAll(b, c)
  {
    var s := a + [c] + b;
    if |a| == 0 {
      assert s[1..] == b;
    } else {
      assert s[1..] == a[1..] + [c] + b;
      SplitAllCons(a[1..], b, c);
      assert a == [a[0]] + a[1..];
    }
  }

  /** The pieces with trailing empty strings removed, as `split` does when
      called without a limit. */
  function DropTrailingEmpty(parts: seq<string>): (r: seq<string>)
    ensures |r| <= |parts| && r == parts[..|r|]
    ensures |r| == 0 || r[|r| - 1] != ""
    ensures forall k :: |r| <= k < |parts| ==> parts[k] == ""
  {
    if |parts| > 0 && parts[|parts| - 1] == "" then DropTrailingEmpty(parts[..|parts| - 1])
    else parts
  }

  /** `s.split(c)` (limit zero): a string without `c` is returned whole, even
      when empty; otherwise the pieces between separators, trailing empty
      ones dropped. */
  function JavaSplit(s: string, c: char): (parts: seq<string>)
    ensures c !in s ==> parts == [s]
    ensures |parts| <= Count(s, c) + 1
  {
    if c !in s then [s] else DropTrailingEmpty(SplitAll(s, c))
  }

  /** What `split` returns: separator-free pieces, the last one non-empty
      when there was a separator at all, which joined with the separator
      give `s` up to a tail of separators. */
  lemma JavaSplitJoins(s: string, c: char)
    ensures var parts := JavaSplit(s, c); var joined := Join(parts, c);
      && (forall k :: 0 <= k < |parts| ==> c !in parts[k])
      && (c in s ==> parts == [] || parts[|parts| - 1] != "")
      && |joined| <= |s| && s[..|joined|] == joined
      && (forall i :: |joined| <= i < |s| ==> s[i] == c)
  {
    if c in s {
      JoinDropTrailing(SplitAll(s, c), c);
    }
  }

  /** Appending a piece appends a separator and the piece. */
  lemma {:induction false} JoinSnoc(parts: seq<string>, x: string, c: char)
    requires |parts| > 0
    ensures Join(parts + [x], c) == Join(parts, c) + [c] + x
    decreases |parts|
  {
    if |parts| > 1 {
      assert (parts + [x])[1..] == parts[1..] + [x];
      JoinSnoc(parts[1..], x, c);
    }
  }

  /** Dropping trailing empty pieces drops only separators from the end of
      the joined string. */
  lemma {:induction false} JoinDropTrailing(parts: seq<string>, c: char)
    ensures var whole := Join(parts, c); var kept := Join(DropTrailingEmpty(parts), c);
      && |kept| <= |whole| && whole[..|kept|] == kept
      && (forall i :: |kept| <= i < |whole| ==> whole[i] == c)
    decreases |parts|
  {
    if |parts| > 0 && parts[|parts| - 1] == "" {
      var init := parts[..|parts| - 1];
      JoinDropTrailing(init, c);
      assert parts == init + [""];
      if |init| > 0 {
        JoinSnoc(init, "", c);
      }
    }
  }

  /** `split` returns exactly the given c-free pieces when they are joined
      with `c` and the last piece is not empty. */
  lemma JavaSplitThree(a: string, b: string, d: string, c: char)
    requires c !in a && c !in b && c !in d && d != ""
    ensures JavaSplit(a + [c] + b + [c] + d, c) == [a, b, d]
  {
    var s := a + [c] + b + [c] + d;
    assert s == a + [c] + (b + [c] + d);
    SplitAllCons(a, b + [c] + d, c);
    SplitAllCons(b, d, c);
    SplitAllAbsent(d, c);
    assert s[|a|] == c;
    assert SplitAll(s, c) == [a, b, d];
    assert JavaSplit(s, c) == DropTrailingEmpty([a, b, d]);
  }

  lemma JavaSplitTwo(a: string, b: string, c: char)
    requires c !in a && c !in b && b != ""
    ensures JavaSplit(a + [c] + b, c) == [a, b]
  {
    SplitAllCons(a, b, c);
    SplitAllAbsent(b, c);
    assert (a + [c] + b)[|a|] == c;
    assert JavaSplit(a + [c] + b, c) == DropTrailingEmpty([a, b]);
  }

  lemma {:induction false} JoinContains(parts: seq<string>, c: char, k: nat, ch: char)
    requires k < |parts| && ch in parts[k]
    ensures ch in Join(parts, c)
  {
    if |parts| > 1 && k > 0 {
      JoinContains(parts[1..], c, k - 1, ch);
    }
  }

  /** Every piece `split` returns is free of the separator and holds only
      characters of the split string. */
  lemma SplitPieceChars(s: string, c: char, k: nat)
    requires k < |JavaSplit(s, c)|
    ensures forall ch :: ch in JavaSplit(s, c)[k] ==> ch != c && ch in s
  {
    if c in s {
      var all := SplitAll(s, c);
      assert JavaSplit(s, c)[k] == all[k];
      forall ch | ch in all[k]
        ensures ch in s
      {
        JoinContains(all, c, k, ch);
      }
    }
  }

  /** First index of `c` in `s`, or `|s|` when absent. */
  function IndexOf(s: string, c: char): (i: nat)
    ensures i <= |s|
    ensures i < |s| <==> c in s
    ensures i < |s| ==> s[i] == c
    ensures c !in s[..i]
  {
    if |s| == 0 then 0
    else if s[0] == c then 0
    else
      var j := IndexOf(s[1..], c);
      assert s[..j + 1] == [s[0]] + s[1..][..j];
      j + 1
  }

  /** `s.split(c, 2)`: no separator gives `[s]`; otherwise the text before the
      first separator and everything after it, trailing empty piece kept. */
  function SplitFirst(s: string, c: char): (parts: seq<string>)
    ensures 1 <= |parts| <= 2
    ensures |parts| == 1 <==> c !in s
    ensures |parts| == 1 ==> parts[0] == s
    ensures |parts| == 2 ==> c !in parts[0] && parts[0] + [c] + parts[1] == s
  {
    var i := IndexOf(s, c);
    if i == |s| then [s]
    else
      assert s == s[..i] + [c] + s[i + 1..];
      [s[..i], s[i + 1..]]
  }

  lemma {:induction false} IndexOfAfter(a: string, b: string, c: char)
    requires c !in a
    ensures IndexOf(a + [c] + b, c) == |a|
  {
    if |a| > 0 {
      assert (a + [c] + b)[1..] == a[1..] + [c] + b;
      IndexOfAfter(a[1..], b, c);
    }
  }

  /** A prefix free of `c` is recovered by `split(c, 2)`, with the rest kept
      whole. */
  lemma SplitFirstRecovers(a: string, b: string, c: char)
    requires c !in a
    ensures SplitFirst(a + [c] + b, c) == [a, b]
  {
    var s := a + [c] + b;
    IndexOfAfter(a, b, c);
    assert s[..|a|] == a && s[|a| + 1..] == b;
  }

  // ---------------------------------------------------------------------------
  // decimal digits

  predicate IsDigit(ch: char) {
    '0' <= ch <= '9'
  }

  predicate AllDigits(s: string) {
    forall i :: 0 <= i < |s| ==> IsDigit(s[i])
  }

  /** Value of a string of decimal digits, most significant first. */
  function DigitsValue(s: string): nat
    requires AllDigits(s)
  {
    if |s| == 0 then 0
    else DigitsValue(s[..|s| - 1]) * 10 + (s[|s| - 1] as int - '0' as int)
  }

  function DigitChar(d: nat): (ch: char)
    requires d < 10
    ensures IsDigit(ch) && ch as int - '0' as int == d
  {
    (d + '0' as int) as char
  }

  /** Decimal rendering of a natural number, no leading zeros. */
  function NatToString(n: nat): (s: string)
    ensures |s| > 0 && AllDigits(s)
    ensures DigitsValue(s) == n
    ensures |s| > 1 ==> s[0] != '0'
  {
    if n < 10 then [DigitChar(n)]
    else
      var p := NatToString(n / 10);
      var s := p + [DigitChar(n % 10)];
      assert s[..|s| - 1] == p;
      s
  }
}
