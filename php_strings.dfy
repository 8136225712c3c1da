/**
 The three PHP string built-ins the merge engine relies on, written out:
 `trim` with its default character list, `empty` applied to a string, and
 `explode` on a one-character separator (with `implode` as its inverse).
 */
module PhpStrings {

  /** The characters `trim` strips by default: space, tab, LF, CR, NUL and vertical tab. */
  predicate IsTrimChar(c: char)
  {
    c == ' ' || c == '\t' || c == '\n' || c == '\r' || c == '\0' || c == '\U{000B}'
  }

  /** `empty($s)` for a string `$s`: true for "" and also for "0". */
  predicate Empty(s: string)
  {
    s == "" || s == "0"
  }

  /** `ltrim`: drops the longest prefix of trim characters. */
  function TrimLeft(s: string): (r: string)
    ensures |r| <= |s|
    ensures r == [] || !IsTrimChar(r[0])
    decreases |s|
  {
    if |s| > 0 && IsTrimChar(s[0]) then TrimLeft(s[1..]) else s
  }

  /** `rtrim`: drops the longest suffix of trim characters. */
  function TrimRight(s: string): (r: string)
    ensures |r| <= |s|
    ensures r == [] || !IsTrimChar(r[|r| - 1])
    ensures |r| > 0 ==> r[0] == s[0]
    decreases |s|
  {
    if |s| > 0 && IsTrimChar(s[|s| - 1]) then TrimRight(s[..|s| - 1]) else s
  }

  /** Every character of `s` is a trim character. */
  predicate AllTrimChars(s: string)
  {
    forall k | 0 <= k < |s| :: IsTrimChar(s[k])
  }

  /** How many characters `ltrim` drops. */
  function LeadingTrimLength(s: string): (n: nat)
    ensures n <= |s|
    decreases |s|
  {
    if |s| > 0 && IsTrimChar(s[0]) then 1 + LeadingTrimLength(s[1..]) else 0
  }

  /** How many characters `rtrim` drops. */
  function TrailingTrimLength(s: string): (n: nat)
    ensures n <= |s|
    decreases |s|
  {
    if |s| > 0 && IsTrimChar(s[|s| - 1]) then 1 + TrailingTrimLength(s[..|s| - 1]) else 0
  }

  /** `ltrim` drops a prefix made of trim characters. */
  lemma {:induction false} TrimLeftSlice(s: string)
    ensures TrimLeft(s) == s[LeadingTrimLength(s)..] && AllTrimChars(s[..LeadingTrimLength(s)])
    decreases |s|
  {
    if |s| > 0 && IsTrimChar(s[0]) {
      var t := s[1..];
      TrimLeftSlice(t);
      var n := LeadingTrimLength(t);
      assert t[n..] == s[n + 1..];
      var dropped, rest := s[..n + 1], t[..n];
      forall k | 0 <= k < n + 1 ensures IsTrimChar(dropped[k]) {
        if k > 0 { assert dropped[k] == rest[k - 1]; }
      }
    }
  }

  /** `rtrim` drops a suffix made of trim characters. */
  lemma {:induction false} TrimRightSlice(s: string)
    ensures TrimRight(s) == s[..|s| - TrailingTrimLength(s)] && AllTrimChars(s[|s| - TrailingTrimLength(s)..])
    decreases |s|
  {
    if |s| > 0 && IsTrimChar(s[|s| - 1]) {
      var f := s[..|s| - 1];
      TrimRightSlice(f);
      var n := TrailingTrimLength(f);
      assert f[..|f| - n] == s[..|s| - (n + 1)];
      var dropped, rest := s[|s| - (n + 1)..], f[|f| - n..];
      forall k | 0 <= k < n + 1 ensures IsTrimChar(dropped[k]) {
        if k < n { assert dropped[k] == rest[k]; }
      }
    }
  }

  /** `trim`: the input without leading and trailing trim characters. */
  function Trim(s: string): (r: string)
    ensures |r| <= |s|
    ensures r == [] || (!IsTrimChar(r[0]) && !IsTrimChar(r[|r| - 1]))
  {
    TrimRight(TrimLeft(s))
  }

  /**
   What `trim` keeps: a slice of the input with only trim characters
   outside it (with the ensures of Trim, the slice neither starts nor ends
   with one, so the prefix and suffix dropped are the longest ones).
   */
  lemma TrimIsSlice(s: string)
    ensures exists i, j | 0 <= i <= j <= |s| ::
      Trim(s) == s[i..j] && AllTrimChars(s[..i]) && AllTrimChars(s[j..])
  {
    var i := LeadingTrimLength(s);
    var l := s[i..];
    var e := i + (|l| - TrailingTrimLength(l));
    assert Trim(s) == s[i..e] by {
      TrimLeftSlice(s);
      TrimRightSlice(l);
      assert l[..e - i] == s[i..e];
    }
    assert AllTrimChars(s[..i]) by {
      TrimLeftSlice(s);
    }
    assert AllTrimChars(s[e..]) by {
      TrimRightSlice(l);
      assert s[e..] == l[e - i..];
    }
    assert 0 <= i <= e <= |s| && Trim(s) == s[i..e] && AllTrimChars(s[..i]) && AllTrimChars(s[e..]);
  }

  /** A string that neither starts nor ends with a trim character is its own trim. */
  lemma TrimNoop(s: string)
    requires s == [] || (!IsTrimChar(s[0]) && !IsTrimChar(s[|s| - 1]))
    ensures Trim(s) == s
  {
  }

  /** A leading trim character is dropped. */
  lemma TrimCons(c: char, s: string)
    requires IsTrimChar(c)
    ensures Trim([c] + s) == Trim(s)
  {
    assert ([c] + s)[1..] == s;
  }

  /** A trailing trim character after an already trimmed string is dropped. */
  lemma TrimSnoc(s: string, c: char)
    requires IsTrimChar(c)
    requires s == [] || (!IsTrimChar(s[0]) && !IsTrimChar(s[|s| - 1]))
    ensures Trim(s + [c]) == s
  {
    if s == [] {
      assert TrimLeft([c]) == TrimLeft([]);
    } else {
      var t := s + [c];
      assert t[0] == s[0] && t[|t| - 1] == c;
      assert TrimLeft(t) == t;
      assert t[..|t| - 1] == s;
      assert TrimRight(t) == TrimRight(s);
    }
  }

  /** Trimming twice is trimming once. */
  lemma TrimIdempotent(s: string)
    ensures Trim(Trim(s)) == Trim(s)
  {
    TrimNoop(Trim(s));
  }

  /** Number of occurrences of `c` in `s`. */
  function CountChar(c: char, s: string): nat
    decreases |s|
  {
    if s == [] then 0 else (if s[0] == c then 1 else 0) + CountChar(c, s[1..])
  }

  /**
   `explode($sep, $s)`: the pieces of `s` between occurrences of `sep`.
   There is always one piece more than there are separators, and no piece
   holds a separator.
   */
  function Explode(sep: char, s: string): (parts: seq<string>)
    ensures |parts| == CountChar(sep, s) + 1
    ensures forall i :: 0 <= i < |parts| ==> sep !in parts[i]
    decreases |s|
  {
    if s == [] then [[]]
    else
      var rest := Explode(sep, s[1..]);
      if s[0] == sep then [[]] + rest
      else [[s[0]] + rest[0]] + rest[1..]
  }

  /** `implode($sep, $parts)`: the pieces joined with `sep` between neighbours. */
  function Join(sep: char, parts: seq<string>): string
    decreases |parts|
  {
    if parts == [] then []
    else if |parts| == 1 then parts[0]
    else parts[0] + [sep] + Join(sep, parts[1..])
  }

  /** Joining the pieces of `explode` gives back the original string. */
  lemma {:induction false} JoinExplode(sep: char, s: string)
    ensures Join(sep, Explode(sep, s)) == s
    decreases |s|
  {
    if s != [] {
      var rest := Explode(sep, s[1..]);
      JoinExplode(sep, s[1..]);
      if s[0] == sep {
        assert Explode(sep, s) == [[]] + rest;
        assert Join(sep, Explode(sep, s)) == [] + [sep] + Join(sep, rest);
        assert s == [sep] + s[1..];
      } else {
        var parts := [[s[0]] + rest[0]] + rest[1..];
        assert Explode(sep, s) == parts;
        if |rest| == 1 {
          assert Join(sep, parts) == [s[0]] + rest[0];
          assert rest == [rest[0]];
        } else {
          assert parts[1..] == rest[1..];
          assert Join(sep, rest) == rest[0] + [sep] + Join(sep, rest[1..]);
          assert Join(sep, parts) == [s[0]] + rest[0] + [sep] + Join(sep, rest[1..]);
        }
        assert s == [s[0]] + s[1..];
      }
    }
  }

  /** A separator-free prefix becomes part of the first piece. */
  lemma {:induction false} ExplodePrefix(sep: char, p: string, q: string)
    requires sep !in p
    ensures Explode(sep, p + q) == [p + Explode(sep, q)[0]] + Explode(sep, q)[1..]
    decreases |p|
  {
    if p != [] {
      ExplodePrefix(sep, p[1..], q);
      assert (p + q)[1..] == p[1..] + q;
      assert (p + q)[0] == p[0];
      assert [p[0]] + (p[1..] + Explode(sep, q)[0]) == p + Explode(sep, q)[0];
    } else {
      var e := Explode(sep, q);
      assert p + q == q;
      assert p + e[0] == e[0];
      assert e == [e[0]] + e[1..];
    }
  }

  /** `explode` undoes `implode` when no piece holds the separator. */
  lemma {:induction false} ExplodeJoin(sep: char, parts: seq<string>)
    requires |parts| >= 1
    requires forall i :: 0 <= i < |parts| ==> sep !in parts[i]
    ensures Explode(sep, Join(sep, parts)) == parts
    decreases |parts|
  {
    if |parts| == 1 {
      ExplodePrefix(sep, parts[0], []);
      assert parts[0] + [] == parts[0];
    } else {
      var tail := Join(sep, parts[1..]);
      ExplodeJoin(sep, parts[1..]);
      ExplodePrefix(sep, parts[0], [sep] + tail);
      assert parts[0] + [sep] + tail == parts[0] + ([sep] + tail);
      assert ([sep] + tail)[1..] == tail;
      assert Explode(sep, [sep] + tail) == [[]] + parts[1..];
      assert parts[0] + [] == parts[0];
    }
  }

  /** A string without the separator explodes into itself alone. */
  lemma ExplodeNoSeparator(sep: char, s: string)
    requires sep !in s
    ensures Explode(sep, s) == [s]
  {
    ExplodeJoin(sep, [s]);
  }
}
