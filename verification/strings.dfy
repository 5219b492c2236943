/** An optional value: the model's rendering of JavaScript's `null` results. */
module Options {

  datatype Option<+T> = None | Some(value: T)
}

/**
 The JavaScript string built-ins the userscript relies on, over strings as
 sequences of Unicode scalar values: `String.prototype.trim`,
 `String.prototype.startsWith` and `String.prototype.includes`.
 */
module Strings {

  /** The characters ECMAScript's `trim` removes: the WhiteSpace code points
      (TAB, VT, FF, ZWNBSP and every space separator of category Zs) and the
      LineTerminator code points (LF, CR, LS, PS). */
  predicate IsJsWhitespace(c: char)
  {
    var n := c as int;
    || n == 0x09 || n == 0x0B || n == 0x0C || n == 0xFEFF   // TAB, VT, FF, ZWNBSP
    || n == 0x0A || n == 0x0D || n == 0x2028 || n == 0x2029 // LF, CR, LS, PS
    || n == 0x20 || n == 0xA0 || n == 0x1680                // category Zs ...
    || (0x2000 <= n <= 0x200A) || n == 0x202F || n == 0x205F || n == 0x3000
  }

  /** True when every character of `s` is one `trim` removes. */
  predicate AllWhitespace(s: string)
  {
    forall i :: 0 <= i < |s| ==> IsJsWhitespace(s[i])
  }

  /** True when `s` neither starts nor ends with a character `trim` removes. */
  predicate IsTrimmed(s: string)
  {
    s == [] || (!IsJsWhitespace(s[0]) && !IsJsWhitespace(s[|s| - 1]))
  }

  /** Drops the leading whitespace of `s`: the result is a suffix of `s`
      that is empty or starts with a non-whitespace character. */
  function TrimStart(s: string): (r: string)
    ensures |r| <= |s| && r == s[|s| - |r|..]
    ensures r == [] || !IsJsWhitespace(r[0])
  {
    if |s| > 0 && IsJsWhitespace(s[0]) then TrimStart(s[1..]) else s
  }

  /** Only whitespace is dropped by `TrimStart`. */
  lemma {:induction false} TrimStartCutsWhitespace(s: string)
    ensures AllWhitespace(s[..|s| - |TrimStart(s)|])
    decreases |s|
  {
    if |s| > 0 && IsJsWhitespace(s[0]) {
      TrimStartCutsWhitespace(s[1..]);
      var k := |s| - |TrimStart(s)|;
      assert s[..k] == [s[0]] + s[1..][..k - 1];
    }
  }

  /** Drops the trailing whitespace of `s`: the result is a prefix of `s`
      that is empty or ends with a non-whitespace character. */
  function TrimEnd(s: string): (r: string)
    ensures |r| <= |s| && r == s[..|r|]
    ensures r == [] || !IsJsWhitespace(r[|r| - 1])
  {
    if |s| > 0 && IsJsWhitespace(s[|s| - 1]) then TrimEnd(s[..|s| - 1]) else s
  }

  /** Only whitespace is dropped by `TrimEnd`. */
  lemma {:induction false} TrimEndCutsWhitespace(s: string)
    ensures AllWhitespace(s[|TrimEnd(s)|..])
    decreases |s|
  {
    if |s| > 0 && IsJsWhitespace(s[|s| - 1]) {
      var t := s[..|s| - 1];
      TrimEndCutsWhitespace(t);
      var k := |TrimEnd(s)|;
      assert s[k..] == t[k..] + [s[|s| - 1]];
    }
  }

  /** `String.prototype.trim`: `s` without its leading and trailing
      whitespace. The result neither starts nor ends with whitespace;
      `TrimIsInfix` shows it is what is left of `s` once whitespace is cut
      from both ends. */
  function Trim(s: string): (r: string)
    ensures IsTrimmed(r)
    ensures |r| <= |s|
  {
    var a := TrimStart(s);
    var r := TrimEnd(a);
    assert r == [] || !IsJsWhitespace(r[0]) by {
      if r != [] { assert r[0] == a[0]; }
    }
    r
  }

  /** `Trim(s)` is a contiguous infix of `s`, and everything cut away on
      either side of it is whitespace. */
  lemma TrimIsInfix(s: string)
    ensures exists i :: 0 <= i <= |s| - |Trim(s)| && Trim(s) == s[i..i + |Trim(s)|]
                        && AllWhitespace(s[..i]) && AllWhitespace(s[i + |Trim(s)|..])
  {
    var a := TrimStart(s);
    var r := TrimEnd(a);
    var i := |s| - |a|;
    TrimStartCutsWhitespace(s);
    TrimEndCutsWhitespace(a);
    assert r == s[i..i + |r|];
    assert s[i + |r|..] == a[|r|..];
  }

  /** `Trim` is the only way to cut whitespace off both ends of a string so
      that what is left starts and ends with a non-whitespace character:
      whenever `s` is `pre + m + post` with `pre` and `post` all whitespace
      and `m` trimmed, `Trim(s)` is `m`. */
  lemma {:induction false} TrimUnique(pre: string, m: string, post: string)
    requires AllWhitespace(pre) && AllWhitespace(post) && IsTrimmed(m)
    ensures Trim(pre + m + post) == m
  {
    var s := pre + m + post;
    if m == [] {
      assert s == (pre + post) + [];
      assert AllWhitespace(pre + post);
      TrimStartSkips(pre + post, []);
    } else {
      assert s == pre + (m + post);
      TrimStartSkips(pre, m + post);
      TrimEndSkips(m, post);
    }
  }

  /** Leading whitespace followed by a string that does not start with
      whitespace is exactly what `TrimStart` removes. */
  lemma {:induction false} TrimStartSkips(pre: string, rest: string)
    requires AllWhitespace(pre)
    requires rest == [] || !IsJsWhitespace(rest[0])
    ensures TrimStart(pre + rest) == rest
    decreases |pre|
  {
    if pre == [] {
      assert pre + rest == rest;
    } else {
      assert (pre + rest)[1..] == pre[1..] + rest;
      TrimStartSkips(pre[1..], rest);
    }
  }

  /** Trailing whitespace after a string that does not end with whitespace
      is exactly what `TrimEnd` removes. */
  lemma {:induction false} TrimEndSkips(m: string, post: string)
    requires AllWhitespace(post)
    requires m == [] || !IsJsWhitespace(m[|m| - 1])
    ensures TrimEnd(m + post) == m
    decreases |post|
  {
    if post == [] {
      assert m + post == m;
    } else {
      var s := m + post;
      assert s[..|s| - 1] == m + post[..|post| - 1];
      TrimEndSkips(m, post[..|post| - 1]);
    }
  }

  /** `String.prototype.startsWith(prefix)`. */
  predicate StartsWith(s: string, prefix: string)
  {
    |prefix| <= |s| && s[..|prefix|] == prefix
  }

  /** A string starts with any of its prefixes. */
  lemma StartsWithConcat(prefix: string, rest: string)
    ensures StartsWith(prefix + rest, prefix)
  {
    assert (prefix + rest)[..|prefix|] == prefix;
  }

  /** `startsWith` holds exactly when `s` is `prefix` followed by some
      rest. */
  lemma StartsWithIff(s: string, prefix: string)
    ensures StartsWith(s, prefix) <==> exists rest :: s == prefix + rest
  {
    if StartsWith(s, prefix) {
      assert s == prefix + s[|prefix|..];
    }
    if rest :| s == prefix + rest {
      StartsWithConcat(prefix, rest);
    }
  }

  /** `sub` occurs in `s` starting at index `i`. */
  predicate OccursAt(s: string, sub: string, i: int)
  {
    0 <= i && i + |sub| <= |s| && s[i..i + |sub|] == sub
  }

  /** `String.prototype.includes(sub)`: a left-to-right search for an
      occurrence of `sub` in `s`. */
  function Includes(s: string, sub: string): (r: bool)
    ensures r <==> exists i :: OccursAt(s, sub, i)
    decreases |s|
  {
    if |s| < |sub| then
      false
    else if s[..|sub|] == sub then
      assert OccursAt(s, sub, 0);
      true
    else
      var r := Includes(s[1..], sub);
      IncludesStep(s, sub);
      r
  }

  /** Past a non-matching first position, the occurrences of `sub` in `s`
      are those in `s[1..]`, shifted by one. */
  lemma IncludesStep(s: string, sub: string)
    requires |s| >= |sub| && s[..|sub|] != sub
    ensures (exists i :: OccursAt(s, sub, i)) <==> (exists i :: OccursAt(s[1..], sub, i))
  {
    if i :| OccursAt(s, sub, i) {
      assert i != 0;
      assert s[1..][i - 1..i - 1 + |sub|] == s[i..i + |sub|];
      assert OccursAt(s[1..], sub, i - 1);
    }
    if i :| OccursAt(s[1..], sub, i) {
      assert s[1..][i..i + |sub|] == s[i + 1..i + 1 + |sub|];
      assert OccursAt(s, sub, i + 1);
    }
  }
}
