/** Byte strings, C strings and the Option wrapper shared by every module. */
module Common {

  /** One octet of a C `gchar` buffer, taken as unsigned. */
  newtype byte = x: int | 0 <= x < 0x100

  /** The bit pattern of a 16-bit field (`gint16` in the packed record). */
  newtype uint16 = x: int | 0 <= x < 0x1_0000

  /** A 32-bit signed value (`gint32`, used for preference values). */
  newtype int32 = x: int | -0x8000_0000 <= x < 0x8000_0000

  type Bytes = seq<byte>

  /** A NUL-terminated C string, seen as the bytes before its terminator. */
  type CString = s: Bytes | NulFree(s)

  datatype Option<T> = None | Some(value: T)

  predicate NulFree(s: Bytes) {
    forall i | 0 <= i < |s| :: s[i] != 0
  }

  /** Index of the first NUL byte of `s`, or `|s|` when there is none (strlen). */
  function CStrLen(s: Bytes): (n: nat)
    ensures n <= |s|
    ensures NulFree(s[..n])
    ensures n < |s| ==> s[n] == 0
    decreases |s|
  {
    if s == [] then 0
    else if s[0] == 0 then 0
    else
      var n := 1 + CStrLen(s[1..]);
      assert s[..n] == [s[0]] + s[1..][..n - 1];
      n
  }

  /** What C code sees of a buffer through `%s` or `strcmp`: the bytes before the first NUL. */
  function CStr(s: Bytes): (c: CString)
    ensures |c| <= |s| && c == s[..|c|]
    ensures |c| < |s| ==> s[|c|] == 0
  {
    s[..CStrLen(s)]
  }

  lemma CStrOfNulFree(s: Bytes)
    requires NulFree(s)
    ensures CStr(s) == s
  {
  }

  /** A `gint32` read back as `guint` (two's complement reinterpretation): the one value below 2^32 congruent to it. */
  function Unsigned32(x: int32): (n: nat)
    ensures n < 0x1_0000_0000 && (n - x as int) % 0x1_0000_0000 == 0
  {
    if x < 0 then x as int + 0x1_0000_0000 else x as int
  }

  /** No other value below 2^32 is congruent to `x`. */
  lemma Unsigned32Unique(x: int32, m: int)
    requires 0 <= m < 0x1_0000_0000 && (m - x as int) % 0x1_0000_0000 == 0
    ensures m == Unsigned32(x)
  {
    var n := Unsigned32(x);
    var d := m - n;
    assert d % 0x1_0000_0000 == 0 by {
      assert m - x as int == d + (n - x as int);
    }
    assert -0x1_0000_0000 < d < 0x1_0000_0000;
  }

  /** Non-negative values keep their value; negative ones wrap to 2^32 + x. */
  lemma Unsigned32Cases(x: int32)
    ensures x >= 0 ==> Unsigned32(x) == x as int
    ensures x < 0 ==> Unsigned32(x) == x as int + 0x1_0000_0000
  {
    if x >= 0 {
      Unsigned32Unique(x, x as int);
    } else {
      Unsigned32Unique(x, x as int + 0x1_0000_0000);
    }
  }

  /** `isspace` in the C locale: space, \t, \n, \v, \f, \r. */
  predicate IsSpace(b: byte) {
    b == 0x20 || (0x09 <= b <= 0x0D)
  }

  function Reverse<T>(s: seq<T>): (r: seq<T>)
    ensures |r| == |s|
    ensures forall i | 0 <= i < |s| :: r[i] == s[|s| - 1 - i]
  {
    if s == [] then [] else Reverse(s[1..]) + [s[0]]
  }

  lemma ReverseAppend<T>(a: seq<T>, b: seq<T>)
    ensures Reverse(a + b) == Reverse(b) + Reverse(a)
  {
    var r, l := Reverse(a + b), Reverse(b) + Reverse(a);
    assert |r| == |l|;
    forall i | 0 <= i < |r| ensures r[i] == l[i] {
      if i < |b| {
      } else {
      }
    }
  }

  lemma ReverseReverse<T>(s: seq<T>)
    ensures Reverse(Reverse(s)) == s
  {
    var r := Reverse(Reverse(s));
    assert |r| == |s|;
    forall i | 0 <= i < |s| ensures r[i] == s[i] {
      assert r[i] == Reverse(s)[|s| - 1 - i];
    }
  }

  /** Prepending to a reversed list is appending to the list. */
  lemma ReverseSnoc<T>(s: seq<T>, x: T)
    ensures [x] + Reverse(s) == Reverse(s + [x])
  {
    ReverseAppend(s, [x]);
    assert Reverse([x]) == [x];
  }
}
