/**
 The small vocabulary the three sidecars share: optional values, bytes, and
 the handful of Python string operations their handlers rely on
 (`startswith`, `in`, `str.strip`, `sep.join`).
 */
module Common {

  datatype Option<T> = None | Some(value: T)

  newtype byte = x: int | 0 <= x < 256

  /** What `getattr(obj, name, default)` can find: no attribute, `None`, or a string. */
  datatype Attr = Missing | NoneValue | Str(s: string)

  /**
   `getattr(obj, name, "") or ""` for a string-valued attribute: the string
   itself, and "" for a missing attribute or `None`.
   */
  function AttrText(a: Attr): (text: string)
    ensures a.Str? ==> text == a.s
    ensures !a.Str? ==> text == ""
  {
    if a.Str? then a.s else ""
  }

  /** Python's `s.startswith(prefix)`. */
  predicate StartsWith(s: string, prefix: string): (r: bool)
    ensures r <==> |prefix| <= |s| && s[..|prefix|] == prefix
  {
    prefix <= s
  }

  /** Python's `needle in haystack` on strings: `needle` occurs at some offset. */
  predicate Contains(haystack: string, needle: string): (r: bool)
    ensures needle <= haystack ==> r
    ensures r ==> |needle| <= |haystack|
    decreases |haystack|
  {
    needle <= haystack || (|haystack| > 0 && Contains(haystack[1..], needle))
  }

  lemma {:induction false} ContainsAt(haystack: string, needle: string, i: nat)
    requires i <= |haystack| && needle <= haystack[i..]
    ensures Contains(haystack, needle)
    decreases i
  {
    if i > 0 {
      assert haystack[1..][i - 1..] == haystack[i..];
      ContainsAt(haystack[1..], needle, i - 1);
    }
  }

  /** `needle in haystack` holds exactly when `needle` starts at some offset of `haystack`. */
  lemma {:induction false} ContainsOccurs(haystack: string, needle: string)
    ensures Contains(haystack, needle) <==> exists i :: 0 <= i <= |haystack| && needle <= haystack[i..]
    decreases |haystack|
  {
    if exists i :: 0 <= i <= |haystack| && needle <= haystack[i..] {
      var i :| 0 <= i <= |haystack| && needle <= haystack[i..];
      ContainsAt(haystack, needle, i);
    }
    if Contains(haystack, needle) {
      if needle <= haystack {
        assert haystack[0..] == haystack;
      } else {
        ContainsOccurs(haystack[1..], needle);
        var i :| 0 <= i <= |haystack[1..]| && needle <= haystack[1..][i..];
        assert haystack[1..][i..] == haystack[i + 1..];
      }
    }
  }

  /** An occurrence inside the left operand survives appending on the right. */
  lemma {:induction false} ContainsAppend(a: string, b: string, needle: string)
    requires Contains(a, needle)
    ensures Contains(a + b, needle)
    decreases |a|
  {
    if needle <= a {
      assert (a + b)[..|needle|] == a[..|needle|];
    } else {
      assert (a + b)[1..] == a[1..] + b;
      ContainsAppend(a[1..], b, needle);
    }
  }

  /** An occurrence inside the right operand survives prepending on the left. */
  lemma {:induction false} ContainsPrepend(a: string, b: string, needle: string)
    requires Contains(b, needle)
    ensures Contains(a + b, needle)
    decreases |a|
  {
    if a == [] {
      assert a + b == b;
    } else {
      assert (a + b)[1..] == a[1..] + b;
      ContainsPrepend(a[1..], b, needle);
    }
  }

  /** Python's `str.isspace()` on one character (the characters `str.strip()` removes). */
  predicate IsSpace(c: char) {
    || c == ' ' || c == '\t' || c == '\n' || c == '\r'
    || c == '\U{000B}' || c == '\U{000C}'
    || ('\U{001C}' <= c <= '\U{001F}')
    || c == '\U{0085}' || c == '\U{00A0}' || c == '\U{1680}'
    || ('\U{2000}' <= c <= '\U{200A}')
    || c == '\U{2028}' || c == '\U{2029}' || c == '\U{202F}'
    || c == '\U{205F}' || c == '\U{3000}'
  }

  predicate AllSpace(s: string) {
    forall i :: 0 <= i < |s| ==> IsSpace(s[i])
  }

  lemma AllSpaceConcat(a: string, b: string)
    requires AllSpace(a) && AllSpace(b)
    ensures AllSpace(a + b)
  {
    forall i | 0 <= i < |a + b| ensures IsSpace((a + b)[i]) {
      if i < |a| { assert (a + b)[i] == a[i]; } else { assert (a + b)[i] == b[i - |a|]; }
    }
  }

  /** Neither end of `s` is whitespace: what `str.strip()` guarantees of its result. */
  predicate IsStripped(s: string) {
    s == [] || (!IsSpace(s[0]) && !IsSpace(s[|s| - 1]))
  }

  /** Python's `s.lstrip()`: drops the leading whitespace and nothing else. */
  function LStrip(s: string): (r: string)
    ensures |r| <= |s| && r == s[|s| - |r|..]
    ensures AllSpace(s[..|s| - |r|])
    ensures r == [] || !IsSpace(r[0])
    decreases |s|
  {
    if |s| > 0 && IsSpace(s[0]) then
      var r := LStrip(s[1..]);
      assert s[1..][|s| - 1 - |r|..] == s[|s| - |r|..];
      assert s[..|s| - |r|] == [s[0]] + s[1..][..|s| - 1 - |r|];
      AllSpaceConcat([s[0]], s[1..][..|s| - 1 - |r|]);
      r
    else
      assert s[..0] == [];
      s
  }

  /** Python's `s.rstrip()`: drops the trailing whitespace and nothing else. */
  function RStrip(s: string): (r: string)
    ensures |r| <= |s| && r == s[..|r|]
    ensures AllSpace(s[|r|..])
    ensures r == [] || !IsSpace(r[|r| - 1])
    decreases |s|
  {
    if |s| > 0 && IsSpace(s[|s| - 1]) then
      var r := RStrip(s[..|s| - 1]);
      assert s[..|s| - 1][..|r|] == s[..|r|];
      assert s[|r|..] == s[..|s| - 1][|r|..] + [s[|s| - 1]];
      AllSpaceConcat(s[..|s| - 1][|r|..], [s[|s| - 1]]);
      r
    else
      assert s[|s|..] == [];
      s
  }

  /** Number of whitespace characters `str.strip()` removes from the front of `s`. */
  function StripStart(s: string): (k: nat)
    ensures k <= |s|
  {
    |s| - |LStrip(s)|
  }

  /**
   Python's `s.strip()`. The result is the slice of `s` that starts after its
   leading whitespace, everything cut off on either side is whitespace, and
   neither end of the result is whitespace.
   */
  function Strip(s: string): (r: string)
    ensures StripStart(s) + |r| <= |s|
    ensures r == s[StripStart(s)..StripStart(s) + |r|]
    ensures AllSpace(s[..StripStart(s)]) && AllSpace(s[StripStart(s) + |r|..])
    ensures IsStripped(r)
  {
    var l := LStrip(s);
    var r := RStrip(l);
    StripParts(s, StripStart(s), l, r);
    r
  }

  /**
   What `lstrip` then `rstrip` leave: `l` is `s` from `k` on, after
   whitespace and starting with none; `r` is the front of `l`, followed by
   whitespace and ending with none. So `r` is the slice of `s` at `k`, with
   only whitespace around it and at neither of its ends.
   */
  lemma StripParts(s: string, k: nat, l: string, r: string)
    requires k <= |s| && l == s[k..] && AllSpace(s[..k]) && (l == [] || !IsSpace(l[0]))
    requires |r| <= |l| && r == l[..|r|] && AllSpace(l[|r|..]) && (r == [] || !IsSpace(r[|r| - 1]))
    ensures k + |r| <= |s| && r == s[k..k + |r|]
    ensures AllSpace(s[..k]) && AllSpace(s[k + |r|..])
    ensures IsStripped(r)
  {
    assert s[k + |r|..] == l[|r|..];
    if r != [] {
      assert r[0] == l[0];
    }
  }

  /** Stripping a string that has no whitespace at either end changes nothing. */
  lemma StripStripped(s: string)
    requires IsStripped(s)
    ensures Strip(s) == s
  {
    assert LStrip(s) == s;
    assert RStrip(s) == s;
  }

  /** `str.strip()` is idempotent. */
  lemma StripIdempotent(s: string)
    ensures Strip(Strip(s)) == Strip(s)
  {
    StripStripped(Strip(s));
  }

  /** A string that is all whitespace strips to the empty string, and only such a string does. */
  lemma {:induction false} StripEmptyIffAllSpace(s: string)
    ensures Strip(s) == [] <==> AllSpace(s)
  {
    if Strip(s) == [] {
      assert s[..|s|] == s;
    } else {
      var r := Strip(s);
      assert r[0] == s[StripStart(s)];
    }
  }

  /** Python's `sep.join(parts)`. */
  function JoinWith(sep: string, parts: seq<string>): (r: string)
    ensures parts == [] ==> r == ""
    ensures parts != [] ==> parts[0] <= r
    decreases |parts|
  {
    if |parts| == 0 then ""
    else if |parts| == 1 then parts[0]
    else parts[0] + sep + JoinWith(sep, parts[1..])
  }

  /** Joining a part in front of a non-empty list puts one separator between them. */
  lemma JoinWithCons(sep: string, part: string, parts: seq<string>)
    requires parts != []
    ensures JoinWith(sep, [part] + parts) == part + sep + JoinWith(sep, parts)
  {
    assert ([part] + parts)[1..] == parts;
  }

  /** Every part is a substring of the joined text. */
  lemma {:induction false} JoinWithContainsPart(sep: string, parts: seq<string>, k: nat)
    requires k < |parts|
    ensures Contains(JoinWith(sep, parts), parts[k])
    decreases |parts|
  {
    if |parts| == 1 {
      ContainsAt(parts[0], parts[0], 0);
    } else if k == 0 {
      ContainsAt(parts[0], parts[0], 0);
      ContainsAppend(parts[0], sep + JoinWith(sep, parts[1..]), parts[0]);
      assert parts[0] + sep + JoinWith(sep, parts[1..]) == parts[0] + (sep + JoinWith(sep, parts[1..]));
    } else {
      JoinWithContainsPart(sep, parts[1..], k - 1);
      ContainsPrepend(parts[0] + sep, JoinWith(sep, parts[1..]), parts[k]);
    }
  }
}
