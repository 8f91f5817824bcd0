/**
 * The string primitives the memory assistant relies on: Python's
 * `str.isalnum`, `str.isspace`, `str.lower`, `str.strip`,
 * `str.startswith`, `str.split(sep, 1)` and `str.replace`, restricted to
 * the ASCII range (see README).
 */
module Text {

  datatype Option<T> = None | Some(value: T)

  /** Python's `str.isspace` on ASCII: tab to carriage return, the four
      separators 0x1C-0x1F, and the space. */
  predicate IsSpace(c: char)
  {
    var n := c as int;
    n == 32 || 9 <= n <= 13 || 28 <= n <= 31
  }

  /** Python's `str.isalnum` on ASCII. */
  predicate IsAlnum(c: char)
  {
    'a' <= c <= 'z' || 'A' <= c <= 'Z' || '0' <= c <= '9'
  }

  /** Python's `str.lower` on ASCII: upper-case letters become lower-case. */
  function LowerChar(c: char): char
  {
    if 'A' <= c <= 'Z' then (c as int + 32) as char else c
  }

  /** `s.lower()`: every character lowered in place. */
  function Lower(s: string): (r: string)
    ensures |r| == |s|
    ensures forall i :: 0 <= i < |s| ==> r[i] == LowerChar(s[i])
  {
    if s == [] then [] else [LowerChar(s[0])] + Lower(s[1..])
  }

  /** `s.startswith(p)`, one character at a time. */
  predicate StartsWith(s: string, p: string)
  {
    p == [] || (s != [] && s[0] == p[0] && StartsWith(s[1..], p[1..]))
  }

  /** `s` starts with `p` exactly when `p` is the slice of `s` of its length. */
  lemma {:induction false} StartsWithSlice(s: string, p: string)
    ensures StartsWith(s, p) <==> |p| <= |s| && s[..|p|] == p
  {
    if p != [] && s != [] {
      StartsWithSlice(s[1..], p[1..]);
      if |p| <= |s| && s[..|p|] == p {
        assert s[1..][..|p| - 1] == s[..|p|][1..];
      }
      if StartsWith(s, p) {
        assert s[..|p|] == [s[0]] + s[1..][..|p| - 1];
      }
    }
  }

  /** `s.endswith(p)`. */
  predicate EndsWith(s: string, p: string)
  {
    |p| <= |s| && s[|s| - |p|..] == p
  }

  /** `s.lstrip()`: the longest suffix of `s` that does not start with whitespace. */
  function TrimLeft(s: string): (r: string)
    ensures |r| <= |s| && r == s[|s| - |r|..]
    ensures forall i :: 0 <= i < |s| - |r| ==> IsSpace(s[i])
    ensures r == [] || !IsSpace(r[0])
  {
    if s != [] && IsSpace(s[0]) then TrimLeft(s[1..]) else s
  }

  /** `s.rstrip()`: the longest prefix of `s` that does not end with whitespace. */
  function TrimRight(s: string): (r: string)
    ensures |r| <= |s| && r == s[..|r|]
    ensures forall i :: |r| <= i < |s| ==> IsSpace(s[i])
    ensures r == [] || !IsSpace(r[|r| - 1])
  {
    if s != [] && IsSpace(s[|s| - 1]) then TrimRight(s[..|s| - 1]) else s
  }

  /** No whitespace at either end. */
  predicate IsTrimmed(s: string)
  {
    s == [] || (!IsSpace(s[0]) && !IsSpace(s[|s| - 1]))
  }

  /** `s.strip()`: no whitespace left at either end. */
  function Strip(s: string): (r: string)
    ensures IsTrimmed(r) && |r| <= |s|
  {
    TrimRight(TrimLeft(s))
  }

  /** What `strip` returns is the slice of `s` after its leading whitespace,
      and everything cut away on either side is whitespace. */
  lemma StripSlice(s: string)
    ensures var r, k := Strip(s), |s| - |TrimLeft(s)|;
      && k + |r| <= |s|
      && r == s[k..k + |r|]
      && (forall i :: 0 <= i < k ==> IsSpace(s[i]))
      && (forall i :: k + |r| <= i < |s| ==> IsSpace(s[i]))
  {
    var l := TrimLeft(s);
    var k := |s| - |l|;
    SliceOfSuffix(s, k, l, TrimRight(l));
  }

  /** A prefix `r` of the suffix `l == s[k..]`, followed in `l` only by
      whitespace, is the slice `s[k..k + |r|]`, followed in `s` only by
      whitespace. */
  lemma SliceOfSuffix(s: string, k: nat, l: string, r: string)
    requires k <= |s| && l == s[k..]
    requires |r| <= |l| && r == l[..|r|]
    requires forall i :: |r| <= i < |l| ==> IsSpace(l[i])
    ensures k + |r| <= |s| && r == s[k..k + |r|]
    ensures forall i :: k + |r| <= i < |s| ==> IsSpace(s[i])
  {
    forall i | k + |r| <= i < |s|
      ensures IsSpace(s[i])
    {
      assert s[i] == l[i - k];
    }
  }

  /** `strip` only removes characters: one absent before is absent after. */
  lemma StripKeepsAbsent(s: string, c: char)
    requires c !in s
    ensures c !in Strip(s)
  {
    var l := TrimLeft(s);
    var r := TrimRight(l);
    forall i | 0 <= i < |l|
      ensures l[i] != c
    {
      assert l[i] == s[|s| - |l| + i];
    }
    forall i | 0 <= i < |r|
      ensures r[i] != c
    {
      assert r[i] == l[i];
    }
  }

  /** Stripping a string that is already trimmed changes nothing. */
  lemma StripTrimmed(s: string)
    requires IsTrimmed(s)
    ensures Strip(s) == s
  {
  }

  /** Leading whitespace makes no difference to `strip`. */
  lemma StripLeadingSpace(c: char, s: string)
    requires IsSpace(c)
    ensures Strip([c] + s) == Strip(s)
  {
    assert ([c] + s)[1..] == s;
  }

  /** Appending a character to a string with some non-whitespace keeps
      the leading whitespace the same. */
  lemma {:induction false} TrimLeftAppend(s: string, c: char)
    ensures TrimLeft(s + [c]) == if TrimLeft(s) == [] then TrimLeft([c]) else TrimLeft(s) + [c]
  {
    if s == [] {
      assert s + [c] == [c];
    } else {
      var t := s + [c];
      assert t[0] == s[0] && t[1..] == s[1..] + [c];
      if IsSpace(s[0]) {
        TrimLeftAppend(s[1..], c);
        assert TrimLeft(t) == TrimLeft(s[1..] + [c]);
        assert TrimLeft(s) == TrimLeft(s[1..]);
      } else {
        assert TrimLeft(t) == t;
        assert TrimLeft(s) == s;
      }
    }
  }

  /** Trailing whitespace makes no difference to `strip`. */
  lemma StripTrailingSpace(s: string, c: char)
    requires IsSpace(c)
    ensures Strip(s + [c]) == Strip(s)
  {
    TrimLeftAppend(s, c);
    var l := TrimLeft(s);
    if l == [] {
      assert TrimLeft([c]) == TrimLeft([c][1..]) == [];
    } else {
      var t := l + [c];
      assert t[..|t| - 1] == l;
      assert TrimRight(t) == TrimRight(l);
    }
  }

  /** `s.split(sep, 1)`: `None` when `sep` does not occur (Python's unpacking
      then fails), otherwise the text before the first `sep` and the rest. */
  function SplitFirst(s: string, sep: char): (r: Option<(string, string)>)
    ensures r.None? <==> sep !in s
    ensures r.Some? ==> sep !in r.value.0 && s == r.value.0 + [sep] + r.value.1
  {
    if s == [] then None
    else if s[0] == sep then Some(([], s[1..]))
    else match SplitFirst(s[1..], sep)
      case None => None
      case Some((before, after)) => Some(([s[0]] + before, after))
  }

  /** The split is unique: whatever comes before the first `sep` is the head. */
  lemma {:induction false} SplitFirstAt(a: string, sep: char, b: string)
    requires sep !in a
    ensures SplitFirst(a + [sep] + b, sep) == Some((a, b))
  {
    var s := a + [sep] + b;
    if a == [] {
      assert s[1..] == b;
    } else {
      assert s[0] == a[0] != sep;
      assert s[1..] == a[1..] + [sep] + b;
      SplitFirstAt(a[1..], sep, b);
      assert [a[0]] + a[1..] == a;
    }
  }

  /** `s.replace(from, to)` for single characters. */
  function ReplaceChar(s: string, from: char, to: char): (r: string)
    ensures |r| == |s|
    ensures forall i :: 0 <= i < |s| ==> r[i] == if s[i] == from then to else s[i]
  {
    if s == [] then [] else [if s[0] == from then to else s[0]] + ReplaceChar(s[1..], from, to)
  }
}
