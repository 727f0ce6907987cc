/**
 * UTF-8 as defined by section 4 of RFC 3629, the check `g_utf8_validate` performs,
 * and the history module's `validate_utf8_text` built on it.
 */
module Utf8 {
  import opened Common

  /** UTF8-tail = %x80-BF */
  predicate Tail(b: byte) {
    0x80 <= b <= 0xBF
  }

  /** One UTF8-char of the RFC 3629 grammar (UTF8-1 / UTF8-2 / UTF8-3 / UTF8-4). */
  predicate IsUtf8Char(c: Bytes) {
    || (|c| == 1 && c[0] <= 0x7F)
    || (|c| == 2 && 0xC2 <= c[0] <= 0xDF && Tail(c[1]))
    || (|c| == 3 &&
        (|| (c[0] == 0xE0 && 0xA0 <= c[1] <= 0xBF && Tail(c[2]))
         || (0xE1 <= c[0] <= 0xEC && Tail(c[1]) && Tail(c[2]))
         || (c[0] == 0xED && 0x80 <= c[1] <= 0x9F && Tail(c[2]))
         || (0xEE <= c[0] <= 0xEF && Tail(c[1]) && Tail(c[2]))))
    || (|c| == 4 &&
        (|| (c[0] == 0xF0 && 0x90 <= c[1] <= 0xBF && Tail(c[2]) && Tail(c[3]))
         || (0xF1 <= c[0] <= 0xF3 && Tail(c[1]) && Tail(c[2]) && Tail(c[3]))
         || (c[0] == 0xF4 && 0x80 <= c[1] <= 0x8F && Tail(c[2]) && Tail(c[3]))))
  }

  /** `s` starts with a UTF8-char of `k` octets and the rest is valid. */
  predicate SplitsAt(s: Bytes, k: nat)
    requires 1 <= k
    decreases |s|, 0
  {
    k <= |s| && IsUtf8Char(s[..k]) && Valid(s[k..])
  }

  /** UTF8-octets = *( UTF8-char ) */
  predicate Valid(s: Bytes)
    decreases |s|, 1
  {
    s == [] || SplitsAt(s, 1) || SplitsAt(s, 2) || SplitsAt(s, 3) || SplitsAt(s, 4)
  }

  /** The length of the first character of a non-empty valid string. */
  function FirstSplit(s: Bytes): (m: nat)
    requires Valid(s) && s != []
    ensures 1 <= m <= 4 && SplitsAt(s, m)
  {
    if SplitsAt(s, 1) then 1 else if SplitsAt(s, 2) then 2 else if SplitsAt(s, 3) then 3 else 4
  }

  /**
   * The decoder's view of one character: the length of the UTF-8 character that
   * starts `s`, judged from its lead octet and the ranges its continuation
   * octets may take, or 0 when no well-formed character starts there.
   */
  function CharLen(s: Bytes): (n: nat)
    ensures n <= 4 && n <= |s|
  {
    if |s| == 0 then 0
    else
      var b := s[0];
      if b <= 0x7F then 1
      else if 0xC2 <= b <= 0xDF then
        if |s| >= 2 && Tail(s[1]) then 2 else 0
      else if 0xE0 <= b <= 0xEF then
        var lo: byte := if b == 0xE0 then 0xA0 else 0x80;
        var hi: byte := if b == 0xED then 0x9F else 0xBF;
        if |s| >= 3 && lo <= s[1] <= hi && Tail(s[2]) then 3 else 0
      else if 0xF0 <= b <= 0xF4 then
        var lo: byte := if b == 0xF0 then 0x90 else 0x80;
        var hi: byte := if b == 0xF4 then 0x8F else 0xBF;
        if |s| >= 4 && lo <= s[1] <= hi && Tail(s[2]) && Tail(s[3]) then 4 else 0
      else 0
  }

  /** The decoder agrees with the grammar: a UTF8-char of `k` octets starts `s` iff CharLen(s) == k. */
  lemma CharLenMatchesGrammar(s: Bytes, k: nat)
    requires 1 <= k <= |s|
    ensures IsUtf8Char(s[..k]) <==> CharLen(s) == k
  {
  }

  /**
   * Where `g_utf8_validate` stops: it steps over well-formed characters from the
   * front and returns the offset of the first octet that does not start one.
   */
  function ValidPrefixLen(s: Bytes): (n: nat)
    ensures n <= |s|
    decreases |s|
  {
    var c := CharLen(s);
    if c == 0 then 0 else c + ValidPrefixLen(s[c..])
  }

  lemma {:induction false} ValidPrefixIsValid(s: Bytes)
    ensures Valid(s[..ValidPrefixLen(s)])
    decreases |s|
  {
    var c := CharLen(s);
    if c != 0 {
      var n := ValidPrefixLen(s);
      ValidPrefixIsValid(s[c..]);
      CharLenMatchesGrammar(s, c);
      assert n == c + ValidPrefixLen(s[c..]);
      var p := s[..n];
      assert p[..c] == s[..c];
      assert p[c..] == s[c..][..ValidPrefixLen(s[c..])];
      assert SplitsAt(p, c);
    }
  }

  /** No prefix of `s` longer than ValidPrefixLen(s) is valid. */
  lemma {:induction false} ValidPrefixIsLongest(s: Bytes, k: nat)
    requires ValidPrefixLen(s) < k <= |s|
    ensures !Valid(s[..k])
    decreases |s|
  {
    var p := s[..k];
    if Valid(p) {
      var c := CharLen(s);
      var m := FirstSplit(p);
      assert p[..m] == s[..m];
      CharLenMatchesGrammar(s, m);
      assert c == m;
      assert p[m..] == s[m..][..k - m];
      ValidPrefixIsLongest(s[m..], k - m);
      assert false;
    }
  }

  lemma ValidIffFullPrefix(s: Bytes)
    ensures Valid(s) <==> ValidPrefixLen(s) == |s|
  {
    assert s[..|s|] == s;
    ValidPrefixIsValid(s);
    if ValidPrefixLen(s) < |s| {
      ValidPrefixIsLongest(s, |s|);
    }
  }

  /** A C string is at least as long as any NUL-free prefix of its buffer. */
  lemma {:induction false} CStrLenAtLeast(s: Bytes, m: nat)
    requires m <= |s| && NulFree(s[..m])
    ensures m <= CStrLen(s)
    decreases m
  {
    if m > 0 {
      assert s[0] == s[..m][0];
      var t := s[1..];
      forall i | 0 <= i < m - 1 ensures t[i] != 0 {
        assert t[i] == s[..m][i + 1];
      }
      assert NulFree(t[..m - 1]);
      CStrLenAtLeast(t, m - 1);
    }
  }

  /** Every octet of a character after the first is a UTF8-tail, so not NUL. */
  lemma TailsHigh(c: Bytes)
    requires IsUtf8Char(c)
    ensures forall i | 1 <= i < |c| :: c[i] >= 0x80
  {
  }

  /** A character whose lead octet is not NUL holds no NUL. */
  lemma CharNulFree(c: Bytes)
    requires IsUtf8Char(c) && c[0] != 0
    ensures NulFree(c)
  {
    TailsHigh(c);
  }

  /** A character that starts a string with no leading NUL holds no NUL: only UTF8-1 can be 0. */
  lemma CharBeforeNul(s: Bytes, m: nat)
    requires 1 <= m <= |s| && IsUtf8Char(s[..m]) && CStrLen(s) > 0
    ensures m <= CStrLen(s)
  {
    assert s[0] == s[..CStrLen(s)][0];
    assert s[..m][0] == s[0];
    CharNulFree(s[..m]);
    CStrLenAtLeast(s, m);
  }

  /** Dropping `m` bytes before the first NUL moves it `m` places closer. */
  lemma {:induction false} CStrLenDrop(s: Bytes, m: nat)
    requires m <= CStrLen(s)
    ensures CStrLen(s[m..]) == CStrLen(s) - m
    decreases m
  {
    if m == 0 {
      assert s[m..] == s;
    } else {
      assert s[0] == s[..CStrLen(s)][0];
      assert CStrLen(s) == 1 + CStrLen(s[1..]);
      CStrLenDrop(s[1..], m - 1);
      assert s[1..][m - 1..] == s[m..];
    }
  }

  /** A valid string stays valid up to its first NUL: NUL is a one-octet character. */
  lemma {:induction false} ValidBeforeNul(s: Bytes)
    requires Valid(s)
    ensures Valid(s[..CStrLen(s)])
    decreases |s|
  {
    var z := CStrLen(s);
    if z == 0 {
      assert s[..z] == [];
    } else {
      var m := FirstSplit(s);
      CharBeforeNul(s, m);
      var rest := s[m..];
      CStrLenDrop(s, m);
      ValidBeforeNul(rest);
      var p := s[..z];
      assert p[..m] == s[..m];
      assert p[m..] == rest[..CStrLen(rest)];
      assert SplitsAt(p, m);
    }
  }

  /**
   * `validate_utf8_text(text, len)`: 0 for a NULL buffer or len <= 0; otherwise the
   * buffer's first `len` octets are checked by `g_utf8_validate` up to their first
   * NUL. When that part is valid the full `len` is kept; otherwise the result is
   * the offset where the check stopped, where the buffer is cut.
   */
  function ValidateUtf8Text(text: Option<Bytes>, len: int): (r: int)
    requires text.Some? && len > 0 ==> len <= |text.value|
    ensures 0 <= r && (text.Some? && len > 0 ==> r <= len)
  {
    if text.None? || len <= 0 then 0
    else
      var t := text.value[..len];
      var z := CStrLen(t);
      var v := ValidPrefixLen(t[..z]);
      if v == z then len else v
  }

  /**
   * What `validate_utf8_text` returns: 0 without a buffer or a positive length;
   * `len` when the text before the first NUL is valid UTF-8; otherwise the length
   * of the longest valid prefix, which is shorter than the text before the NUL.
   */
  lemma ValidateUtf8TextSpec(text: Option<Bytes>, len: int)
    requires text.Some? && len > 0 ==> len <= |text.value|
    ensures var r := ValidateUtf8Text(text, len);
      && (text.None? || len <= 0 ==> r == 0)
      && (text.Some? && len > 0 ==>
           var t := text.value[..len];
           var z := CStrLen(t);
           && 0 <= r <= len
           && (Valid(t[..z]) ==> r == len)
           && (!Valid(t[..z]) ==>
                 && r < z && Valid(t[..r])
                 && forall k | r < k <= z :: !Valid(t[..k])))
  {
    if text.Some? && len > 0 {
      var t := text.value[..len];
      var z := CStrLen(t);
      var v := ValidPrefixLen(t[..z]);
      ValidIffFullPrefix(t[..z]);
      ValidPrefixIsValid(t[..z]);
      assert t[..z][..v] == t[..v];
      forall k | v < k <= z ensures !Valid(t[..k]) {
        ValidPrefixIsLongest(t[..z], k);
        assert t[..z][..k] == t[..k];
      }
    }
  }

  /** Text that is already valid UTF-8 keeps its full length. */
  lemma ValidateKeepsValid(t: Bytes)
    requires Valid(t)
    ensures ValidateUtf8Text(Some(t), |t|) == |t|
  {
    assert t[..|t|] == t;
    ValidBeforeNul(t);
    ValidateUtf8TextSpec(Some(t), |t|);
  }

  /** Validating the truncated text again changes nothing. */
  lemma ValidateIdempotent(t: Bytes, len: int)
    requires len > 0 && len <= |t|
    requires ValidateUtf8Text(Some(t), len) > 0
    ensures var r := ValidateUtf8Text(Some(t), len);
      ValidateUtf8Text(Some(t[..r]), r) == r
  {
    var r := ValidateUtf8Text(Some(t), len);
    ValidateUtf8TextSpec(Some(t), len);
    ValidateUtf8TextSpec(Some(t[..r]), r);
    var u := t[..len];
    var z := CStrLen(u);
    assert t[..r][..r] == t[..r];
    if r < len {
      assert !Valid(u[..z]) && r < z;
      assert u[..r] == t[..r];
      assert NulFree(t[..r]) by {
        assert t[..r] == u[..z][..r];
      }
      CStrOfNulFree(t[..r]);
      assert t[..r][..r] == t[..r];
    }
  }
}
