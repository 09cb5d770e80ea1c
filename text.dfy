/** The parts of Python's `str` and `bytes` built-ins that the server relies on:
    `endswith`, `bytes.strip()`, `'sep'.join`, `str.split` and `str.encode('ascii')`. */
module Text {
  import opened Wrappers

  newtype byte = x: int | 0 <= x < 256

  /** `s.endswith(suffix)`. */
  predicate EndsWith<T(==)>(s: seq<T>, suffix: seq<T>)
  {
    |suffix| <= |s| && s[|s| - |suffix|..] == suffix
  }

  /** One of the two sequences ends with the other. */
  predicate SuffixRelated<T(==)>(s: seq<T>, t: seq<T>)
  {
    EndsWith(s, t) || EndsWith(t, s)
  }

  /** Two suffixes of the same sequence: the shorter one is a suffix of the longer one. */
  lemma SuffixesOfOneAreRelated<T>(s: seq<T>, a: seq<T>, b: seq<T>)
    requires EndsWith(s, a) && EndsWith(s, b)
    ensures SuffixRelated(a, b)
  {
    if |a| <= |b| {
      assert b[|b| - |a|..] == s[|s| - |a|..];
    } else {
      assert a[|a| - |b|..] == s[|s| - |b|..];
    }
  }

  /** Sequences that differ at the same distance `k` from their ends are not suffixes of each other. */
  lemma DifferFromEnd<T>(s: seq<T>, t: seq<T>, k: nat)
    requires k < |s| && k < |t| && s[|s| - 1 - k] != t[|t| - 1 - k]
    ensures !SuffixRelated(s, t)
  {
  }

  // ---------------------------------------------------------------------------
  // bytes.strip()

  /** The bytes `bytes.strip()` removes when given no argument (ASCII whitespace:
      tab, line feed, vertical tab, form feed, carriage return and space). */
  predicate IsSpace(b: byte)
  {
    9 <= b <= 13 || b == 32
  }

  predicate AllSpace(s: seq<byte>)
  {
    forall i :: 0 <= i < |s| ==> IsSpace(s[i])
  }

  /** `bytes.lstrip()`. */
  function TrimStart(s: seq<byte>): seq<byte>
  {
    if s != [] && IsSpace(s[0]) then TrimStart(s[1..]) else s
  }

  /** `lstrip` gives the longest suffix of `s` that does not start with
      whitespace: what it removes is all whitespace. */
  lemma {:induction false} TrimStartShape(s: seq<byte>)
    ensures var r := TrimStart(s);
      && |r| <= |s| && r == s[|s| - |r|..] && AllSpace(s[..|s| - |r|])
      && (r == [] || !IsSpace(r[0]))
  {
    if s != [] && IsSpace(s[0]) {
      TrimStartShape(s[1..]);
      var r := TrimStart(s[1..]);
      assert s[1..][|s| - 1 - |r|..] == s[|s| - |r|..];
      assert s[..|s| - |r|] == [s[0]] + s[1..][..|s| - 1 - |r|];
    }
  }

  /** `bytes.rstrip()`. */
  function TrimEnd(s: seq<byte>): seq<byte>
  {
    if s != [] && IsSpace(s[|s| - 1]) then TrimEnd(s[..|s| - 1]) else s
  }

  /** `rstrip` gives the longest prefix of `s` that does not end with
      whitespace: what it removes is all whitespace. */
  lemma {:induction false} TrimEndShape(s: seq<byte>)
    ensures var r := TrimEnd(s);
      && |r| <= |s| && r == s[..|r|] && AllSpace(s[|r|..])
      && (r == [] || !IsSpace(r[|r| - 1]))
  {
    if s != [] && IsSpace(s[|s| - 1]) {
      TrimEndShape(s[..|s| - 1]);
      var r := TrimEnd(s[..|s| - 1]);
      assert s[..|s| - 1][..|r|] == s[..|r|];
      assert s[|r|..] == s[..|s| - 1][|r|..] + [s[|s| - 1]];
    }
  }

  /** `bytes.strip()`: removes whitespace at both ends. */
  function Strip(s: seq<byte>): (r: seq<byte>)
  {
    TrimEnd(TrimStart(s))
  }

  /** `s` is whitespace, then `r`, then whitespace, and `r` neither starts nor
      ends with whitespace. */
  predicate StrippedOf(r: seq<byte>, s: seq<byte>)
  {
    exists lo :: 0 <= lo <= |s| - |r| && s[lo..lo + |r|] == r
      && AllSpace(s[..lo]) && AllSpace(s[lo + |r|..])
      && (r == [] || (!IsSpace(r[0]) && !IsSpace(r[|r| - 1])))
  }

  /** What `Strip` computes. */
  lemma {:induction false} StripIsInfix(s: seq<byte>)
    ensures StrippedOf(Strip(s), s)
  {
    var u := TrimStart(s);
    TrimStartShape(s);
    TrimEndShape(u);
    StrippedOfTrims(s, u, TrimEnd(u));
  }

  /** `StripIsInfix` for any `u` and `r` with the contracts of `TrimStart(s)`
      and `TrimEnd(u)`. */
  lemma StrippedOfTrims(s: seq<byte>, u: seq<byte>, r: seq<byte>)
    requires |u| <= |s| && u == s[|s| - |u|..] && AllSpace(s[..|s| - |u|])
    requires u == [] || !IsSpace(u[0])
    requires |r| <= |u| && r == u[..|r|] && AllSpace(u[|r|..])
    requires r == [] || !IsSpace(r[|r| - 1])
    ensures StrippedOf(r, s)
  {
    var lo := |s| - |u|;
    assert s[lo..lo + |r|] == u[..|r|];
    assert s[lo + |r|..] == u[|r|..];
    assert r == [] || r[0] == u[0];
    assert 0 <= lo <= |s| - |r| && s[lo..lo + |r|] == r
      && AllSpace(s[..lo]) && AllSpace(s[lo + |r|..])
      && (r == [] || (!IsSpace(r[0]) && !IsSpace(r[|r| - 1])));
  }

  /** Stripping twice is stripping once. */
  lemma {:induction false} StripIdempotent(s: seq<byte>)
    ensures Strip(Strip(s)) == Strip(s)
  {
    var r := Strip(s);
    StripIsInfix(s);
    var lo :| 0 <= lo <= |s| - |r| && s[lo..lo + |r|] == r
      && AllSpace(s[..lo]) && AllSpace(s[lo + |r|..])
      && (r == [] || (!IsSpace(r[0]) && !IsSpace(r[|r| - 1])));
    assert TrimStart(r) == r;
    assert TrimEnd(r) == r;
  }

  /** `s` holds no whitespace byte. */
  predicate NoSpace(s: seq<byte>)
  {
    forall i :: 0 <= i < |s| ==> !IsSpace(s[i])
  }

  /** `e` is whitespace followed by `r`. */
  predicate AfterSpace(r: seq<byte>, e: seq<byte>)
  {
    |r| <= |e| && r == e[|e| - |r|..] && AllSpace(e[..|e| - |r|])
  }

  /** `Strip(s)` is what is left of `TrimEnd(s)` after its leading whitespace. */
  lemma {:induction false} StripEndsTrimEnd(s: seq<byte>)
    ensures AfterSpace(Strip(s), TrimEnd(s))
  {
    var u := TrimStart(s);
    var r := TrimEnd(u);
    var e := TrimEnd(s);
    TrimStartShape(s);
    TrimEndShape(u);
    TrimEndShape(s);
    StripEndsTrimEndOf(s, u, r, e);
  }

  /** `StripEndsTrimEnd` for any `u`, `r` and `e` with the contracts of
      `TrimStart(s)`, `TrimEnd(u)` and `TrimEnd(s)`. */
  lemma StripEndsTrimEndOf(s: seq<byte>, u: seq<byte>, r: seq<byte>, e: seq<byte>)
    requires |u| <= |s| && u == s[|s| - |u|..] && AllSpace(s[..|s| - |u|])
    requires |r| <= |u| && r == u[..|r|] && AllSpace(u[|r|..])
    requires r == [] || !IsSpace(r[|r| - 1])
    requires |e| <= |s| && e == s[..|e|] && AllSpace(s[|e|..])
    requires e == [] || !IsSpace(e[|e| - 1])
    ensures AfterSpace(r, e)
  {
    var p, q := |s| - |u|, |r|;
    // beyond `r` only whitespace follows in `s`, and before `u` only whitespace
    forall i | p + q <= i < |s| ensures IsSpace(s[i]) {
      assert u[q..][i - p - q] == s[i];
    }
    forall i | 0 <= i < p ensures IsSpace(s[i]) {
      assert s[..p][i] == s[i];
    }
    forall i | |e| <= i < |s| ensures IsSpace(s[i]) {
      assert s[|e|..][i - |e|] == s[i];
    }
    assert e == [] || e[|e| - 1] == s[|e| - 1];
    assert q == 0 || s[p + q - 1] == r[q - 1];
    assert |e| == if q == 0 then 0 else p + q;
    assert r == s[p..p + q];
    assert e[..|e| - q] == s[..|e| - q];
  }

  /** For a nonempty token without whitespace, ending the stripped `s` and ending
      `s` with only its trailing whitespace removed are the same: the leading
      whitespace that `Strip` also removes can never be part of such a token. */
  lemma {:induction false} StripEndsLikeTrimEnd(s: seq<byte>, t: seq<byte>)
    requires t != [] && NoSpace(t)
    ensures EndsWith(Strip(s), t) <==> EndsWith(TrimEnd(s), t)
  {
    StripEndsTrimEnd(s);
    TokenAfterSpace(Strip(s), TrimEnd(s), t);
  }

  lemma TokenAfterSpace(r: seq<byte>, e: seq<byte>, t: seq<byte>)
    requires AfterSpace(r, e)
    requires t != [] && NoSpace(t)
    ensures EndsWith(r, t) <==> EndsWith(e, t)
  {
    var p := |e| - |r|;
    forall k | 0 <= k < p ensures IsSpace(e[k]) {
      assert e[..p][k] == e[k];
    }
    forall j | |e| - |t| <= j < |e| && EndsWith(e, t) ensures !IsSpace(e[j]) {
      assert e[|e| - |t|..][j - (|e| - |t|)] == e[j];
    }
    assert p > 0 ==> IsSpace(e[p - 1]);
    assert EndsWith(e, t) ==> |t| <= |r|;
    if EndsWith(e, t) {
      assert r[|r| - |t|..] == e[|e| - |t|..];
    }
    if EndsWith(r, t) {
      assert e[|e| - |t|..] == r[|r| - |t|..];
    }
  }

  // ---------------------------------------------------------------------------
  // str.encode('ascii')

  predicate IsAscii(s: string)
  {
    forall i :: 0 <= i < |s| ==> s[i] as int < 128
  }

  /** The bytes of an ASCII string. */
  function AsciiBytes(s: string): (b: seq<byte>)
    requires IsAscii(s)
    ensures |b| == |s|
    ensures forall i :: 0 <= i < |s| ==> b[i] as int == s[i] as int
  {
    seq(|s|, i requires 0 <= i < |s| => s[i] as int as byte)
  }

  /** `s.encode('ascii')`: `None` stands for the `UnicodeEncodeError` it raises
      on a character outside ASCII. */
  function EncodeAscii(s: string): (r: Option<seq<byte>>)
  {
    if IsAscii(s) then Some(AsciiBytes(s)) else None
  }

  /** Encoding loses nothing: different ASCII strings have different encodings. */
  lemma AsciiBytesInjective(s: string, t: string)
    requires IsAscii(s) && IsAscii(t) && AsciiBytes(s) == AsciiBytes(t)
    ensures s == t
  {
    assert |s| == |t|;
    forall i | 0 <= i < |s| ensures s[i] == t[i] {
      assert AsciiBytes(s)[i] == AsciiBytes(t)[i];
    }
  }

  /** Matching a suffix on the encodings is matching it on the strings. */
  lemma AsciiEndsWith(s: string, t: string)
    requires IsAscii(s) && IsAscii(t)
    ensures EndsWith(AsciiBytes(s), AsciiBytes(t)) <==> EndsWith(s, t)
  {
    if |t| <= |s| {
      var k := |s| - |t|;
      assert IsAscii(s[k..]);
      assert AsciiBytes(s)[k..] == AsciiBytes(s[k..]);
      if AsciiBytes(s[k..]) == AsciiBytes(t) {
        AsciiBytesInjective(s[k..], t);
      }
    }
  }

  /** Encoding a concatenation encodes each part in turn. */
  lemma AsciiConcat(s: string, t: string)
    requires IsAscii(s) && IsAscii(t)
    ensures IsAscii(s + t)
    ensures AsciiBytes(s + t) == AsciiBytes(s) + AsciiBytes(t)
  {
    var st := s + t;
    assert forall i :: 0 <= i < |st| ==> st[i] == if i < |s| then s[i] else t[i - |s|];
    var b, c := AsciiBytes(st), AsciiBytes(s) + AsciiBytes(t);
    forall i | 0 <= i < |st| ensures b[i] == c[i] {
      if i >= |s| {
        assert c[i] == AsciiBytes(t)[i - |s|];
      }
    }
  }

  // ---------------------------------------------------------------------------
  // sep.join(parts) and s.split(sep)

  /** `sep.join(parts)`. */
  function Join(parts: seq<string>, sep: string): string
  {
    if |parts| == 0 then ""
    else if |parts| == 1 then parts[0]
    else parts[0] + sep + Join(parts[1..], sep)
  }

  /** `s.split(sep)` for a one-character separator: the pieces between the separators. */
  function Split(s: string, sep: char): (parts: seq<string>)
    ensures |parts| >= 1
    ensures forall i :: 0 <= i < |parts| ==> sep !in parts[i]
  {
    if s == [] then [""]
    else
      var rest := Split(s[1..], sep);
      if s[0] == sep then [""] + rest
      else [[s[0]] + rest[0]] + rest[1..]
  }

  /** Joining the pieces of a split gives back the string. */
  lemma {:induction false} JoinSplit(s: string, sep: char)
    ensures Join(Split(s, sep), [sep]) == s
  {
    if s != [] {
      var rest := Split(s[1..], sep);
      JoinSplit(s[1..], sep);
      if s[0] == sep {
        assert Join([""] + rest, [sep]) == "" + [sep] + Join(rest, [sep]);
      } else if |rest| == 1 {
        assert Split(s, sep) == [[s[0]] + rest[0]];
      } else {
        var parts := Split(s, sep);
        assert parts[1..] == rest[1..];
        assert Join(rest, [sep]) == rest[0] + [sep] + Join(rest[1..], [sep]);
      }
    }
  }

  /** Splitting `a + sep + r` where `a` has no separator peels off `a`. */
  lemma {:induction false} SplitAfterPiece(a: string, sep: char, r: string)
    requires sep !in a
    ensures Split(a + [sep] + r, sep) == [a] + Split(r, sep)
  {
    var s := a + [sep] + r;
    if a == [] {
      assert s[1..] == r;
    } else {
      assert s[1..] == a[1..] + [sep] + r;
      SplitAfterPiece(a[1..], sep, r);
      assert [a[0]] + a[1..] == a;
    }
  }

  /** A string without the separator is one piece. */
  lemma {:induction false} SplitNoSeparator(a: string, sep: char)
    requires sep !in a
    ensures Split(a, sep) == [a]
  {
    if a != [] {
      SplitNoSeparator(a[1..], sep);
      assert [a[0]] + a[1..] == a;
    }
  }

  /** Splitting a join of separator-free pieces gives back the pieces. */
  lemma {:induction false} SplitJoin(parts: seq<string>, sep: char)
    requires |parts| >= 1
    requires forall i :: 0 <= i < |parts| ==> sep !in parts[i]
    ensures Split(Join(parts, [sep]), sep) == parts
  {
    if |parts| == 1 {
      SplitNoSeparator(parts[0], sep);
    } else {
      SplitJoin(parts[1..], sep);
      SplitAfterPiece(parts[0], sep, Join(parts[1..], [sep]));
      assert [parts[0]] + parts[1..] == parts;
    }
  }
}
