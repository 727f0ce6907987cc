/**
 * The text of one history-menu entry: glib's view of UTF-8 characters, the
 * rewriting of tab, newline and space into visible glyphs, ellipsizing to the
 * configured number of characters, and the removal of line breaks.
 */
module Labels {
  import opened Common
  import Utf8

  // ---------------------------------------------------------------- characters as glib steps over them

  /** `g_utf8_skip`: the length glib assumes for a character from its first octet. */
  function Skip(b: byte): (n: nat)
    ensures 1 <= n <= 6
  {
    if b < 0xC0 then 1 else if b < 0xE0 then 2 else if b < 0xF0 then 3
    else if b < 0xF8 then 4 else if b < 0xFC then 5 else if b < 0xFE then 6 else 1
  }

  /**
   * `g_utf8_strlen(s, |s|)` on a NUL-free string: the number of characters that
   * end within the string (a truncated last character is not counted).
   */
  function Strlen(s: Bytes): (n: nat)
    ensures n <= |s|
    decreases |s|
  {
    if s == [] || Skip(s[0]) > |s| then 0 else 1 + Strlen(s[Skip(s[0])..])
  }

  /** `g_utf8_offset_to_pointer(s, k) - s`: the octet offset of character `k`. */
  function Offset(s: Bytes, k: nat): (p: nat)
    requires k <= Strlen(s)
    ensures p <= |s|
    decreases k
  {
    if k == 0 then 0 else Skip(s[0]) + Offset(s[Skip(s[0])..], k - 1)
  }

  /** The characters glib steps over end exactly at the end of `s`. */
  predicate Whole(s: Bytes)
    decreases |s|
  {
    s == [] || (Skip(s[0]) <= |s| && Whole(s[Skip(s[0])..]))
  }

  /** The characters of `s` as glib steps over them; a truncated last one is kept as it is. */
  function Chars(s: Bytes): (cs: seq<Bytes>)
    decreases |s|
  {
    if s == [] then []
    else
      var n := if Skip(s[0]) <= |s| then Skip(s[0]) else |s|;
      [s[..n]] + Chars(s[n..])
  }

  function Flatten(cs: seq<Bytes>): Bytes {
    if cs == [] then [] else cs[0] + Flatten(cs[1..])
  }

  lemma {:induction false} CharsFlatten(s: Bytes)
    ensures Flatten(Chars(s)) == s
    decreases |s|
  {
    if s != [] {
      var n := if Skip(s[0]) <= |s| then Skip(s[0]) else |s|;
      CharsFlatten(s[n..]);
      assert Chars(s)[1..] == Chars(s[n..]);
      assert s == s[..n] + s[n..];
    }
  }

  /** On a whole string, `g_utf8_strlen` counts exactly its characters. */
  lemma {:induction false} WholeCount(s: Bytes)
    requires Whole(s)
    ensures |Chars(s)| == Strlen(s)
    decreases |s|
  {
    if s != [] {
      WholeCount(s[Skip(s[0])..]);
    }
  }

  /** The first character of a string glib can step over entirely. */
  lemma CharsCons(s: Bytes)
    requires s != [] && Skip(s[0]) <= |s|
    ensures Chars(s) == [s[..Skip(s[0])]] + Chars(s[Skip(s[0])..])
  {
  }

  lemma FlattenCons(c: Bytes, cs: seq<Bytes>)
    ensures Flatten([c] + cs) == c + Flatten(cs)
  {
    assert ([c] + cs)[1..] == cs;
  }

  /** One character further into a whole string. */
  lemma OffsetStep(s: Bytes, k: nat)
    requires Whole(s) && 0 < k <= Strlen(s)
    ensures s != [] && Skip(s[0]) <= |s|
    ensures var n := Skip(s[0]); var rest := s[n..];
      Whole(rest) && k - 1 <= Strlen(rest) && Offset(s, k) == n + Offset(rest, k - 1) &&
      Chars(s) == [s[..n]] + Chars(rest)
  {
    CharsCons(s);
  }

  /** The octets before character `k` of a whole string are its first `k` characters. */
  lemma {:induction false} OffsetPrefix(s: Bytes, k: nat)
    requires Whole(s) && k <= Strlen(s)
    ensures |Chars(s)| == Strlen(s)
    ensures s[..Offset(s, k)] == Flatten(Chars(s)[..k])
    decreases k
  {
    WholeCount(s);
    if k == 0 {
      assert s[..0] == [] && Chars(s)[..0] == [];
    } else {
      OffsetStep(s, k);
      var n := Skip(s[0]);
      var rest := s[n..];
      var p := Offset(rest, k - 1);
      OffsetPrefix(rest, k - 1);
      var cr := Chars(rest);
      ConsTake(s[..n], cr, k);
      FlattenCons(s[..n], cr[..k - 1]);
      TakeSplit(s, n, p);
    }
  }

  /** The octets from character `k` of a whole string on are its characters after the first `k`. */
  lemma {:induction false} OffsetSuffix(s: Bytes, k: nat)
    requires Whole(s) && k <= Strlen(s)
    ensures |Chars(s)| == Strlen(s)
    ensures s[Offset(s, k)..] == Flatten(Chars(s)[k..])
    decreases k
  {
    WholeCount(s);
    if k == 0 {
      CharsFlatten(s);
      assert s[0..] == s && Chars(s)[0..] == Chars(s);
    } else {
      OffsetStep(s, k);
      var n := Skip(s[0]);
      var rest := s[n..];
      var p := Offset(rest, k - 1);
      OffsetSuffix(rest, k - 1);
      ConsDrop(s[..n], Chars(rest), k);
      DropDrop(s, n, p);
    }
  }

  lemma ConsTake<T>(x: T, r: seq<T>, k: nat)
    requires 1 <= k <= |r| + 1
    ensures ([x] + r)[..k] == [x] + r[..k - 1]
  {
  }

  lemma TakeSplit<T>(s: seq<T>, n: nat, p: nat)
    requires n + p <= |s|
    ensures s[..n + p] == s[..n] + s[n..][..p]
  {
  }

  lemma ConsDrop<T>(x: T, r: seq<T>, k: nat)
    requires 1 <= k <= |r| + 1
    ensures ([x] + r)[k..] == r[k - 1..]
  {
  }

  lemma DropDrop<T>(s: seq<T>, n: nat, p: nat)
    requires n + p <= |s|
    ensures s[n..][p..] == s[n + p..]
  {
  }

  /** A NUL-free ASCII string: one octet per character. */
  predicate Ascii(s: Bytes) {
    forall i | 0 <= i < |s| :: 0 < s[i] < 0x80
  }

  lemma {:induction false} AsciiChars(s: Bytes)
    requires Ascii(s)
    ensures Whole(s) && Strlen(s) == |s|
    ensures forall k | 0 <= k <= |s| :: Offset(s, k) == k
    decreases |s|
  {
    if s != [] {
      AsciiChars(s[1..]);
      forall k | 0 < k <= |s| ensures Offset(s, k) == k {
        assert Offset(s, k) == 1 + Offset(s[1..], k - 1);
      }
    }
  }

  /** Character by character, a valid UTF-8 string is what glib's skip table steps over. */
  lemma {:induction false} ValidIsWhole(s: Bytes)
    requires Utf8.Valid(s)
    ensures Whole(s)
    decreases |s|
  {
    if s != [] {
      var m := Utf8.FirstSplit(s);
      assert Utf8.IsUtf8Char(s[..m]);
      assert s[..m][0] == s[0];
      assert Skip(s[0]) == m;
      ValidIsWhole(s[m..]);
    }
  }

  // ---------------------------------------------------------------- visible tab, newline and space

  /** "→" (U+2192) shown for a tab. */
  const ARROW: Bytes := [0xE2, 0x86, 0x92]
  /** "⁋" (U+204B) shown for a newline. */
  const PARAGRAPH: Bytes := [0xE2, 0x81, 0x8B]
  /** "␣" (U+2423) shown for a space. */
  const OPEN_BOX: Bytes := [0xE2, 0x90, 0xA3]

  /** The octets `convert_nonprinting_characters` rewrites. */
  predicate Special(b: byte) {
    b == 0x09 || b == 0x0A || b == 0x20
  }

  function Glyph(b: byte): (g: Bytes)
    requires Special(b)
    ensures |g| == 3 && g[0] == 0xE2 && forall i | 0 <= i < 3 :: !Special(g[i])
    ensures Utf8.Tail(g[1]) && Utf8.Tail(g[2])
  {
    if b == 0x09 then ARROW else if b == 0x0A then PARAGRAPH else OPEN_BOX
  }

  /** Every tab, newline and space replaced by its glyph, every other octet kept in place. */
  function Visible(s: Bytes): Bytes
    decreases |s|
  {
    if s == [] then []
    else (if Special(s[0]) then Glyph(s[0]) else [s[0]]) + Visible(s[1..])
  }

  function SpecialCount(s: Bytes): (n: nat)
    ensures n <= |s|
    decreases |s|
  {
    if s == [] then 0 else (if Special(s[0]) then 1 else 0) + SpecialCount(s[1..])
  }

  /**
   * What the loop of `convert_nonprinting_characters` produces as written: after
   * each replacement it resumes one character too far, so the octet right after
   * a replaced one is copied without being examined.
   */
  function Written(s: Bytes): Bytes
    decreases |s|
  {
    if s == [] then []
    else if Special(s[0]) then
      Glyph(s[0]) + (if |s| == 1 then [] else [s[1]] + Written(s[2..]))
    else [s[0]] + Written(s[1..])
  }

  lemma {:induction false} VisibleAppend(a: Bytes, b: Bytes)
    ensures Visible(a + b) == Visible(a) + Visible(b)
    decreases |a|
  {
    if a == [] {
      assert a + b == b;
    } else {
      var h := if Special(a[0]) then Glyph(a[0]) else [a[0]];
      assert (a + b)[0] == a[0] && (a + b)[1..] == a[1..] + b;
      VisibleAppend(a[1..], b);
      assert Visible(a + b) == h + Visible(a[1..] + b);
      Assoc(h, Visible(a[1..]), Visible(b));
    }
  }

  /** The output grows by two octets for each replaced one. */
  lemma {:induction false} VisibleLength(s: Bytes)
    ensures |Visible(s)| == |s| + 2 * SpecialCount(s)
    decreases |s|
  {
    if s != [] {
      VisibleLength(s[1..]);
    }
  }

  /** No tab, newline or space is left. */
  lemma {:induction false} VisibleHasNoSpecial(s: Bytes)
    ensures forall i | 0 <= i < |Visible(s)| :: !Special(Visible(s)[i])
    decreases |s|
  {
    if s != [] {
      VisibleHasNoSpecial(s[1..]);
      var head := if Special(s[0]) then Glyph(s[0]) else [s[0]];
      assert Visible(s) == head + Visible(s[1..]);
      forall i | 0 <= i < |Visible(s)| ensures !Special(Visible(s)[i]) {
        if i >= |head| {
          assert Visible(s)[i] == Visible(s[1..])[i - |head|];
        }
      }
    }
  }

  /** A run of octets that are not rewritten is copied as it is. */
  lemma {:induction false} VisibleCopies(u: Bytes, k: nat)
    requires k <= |u| && forall i | 0 <= i < k :: !Special(u[i])
    ensures Visible(u) == u[..k] + Visible(u[k..])
    decreases k
  {
    if k > 0 {
      VisibleCopies(u[1..], k - 1);
      assert u[1..][k - 1..] == u[k..];
      assert u[..k] == [u[0]] + u[1..][..k - 1];
    }
  }

  /** The loop as written copies such a run in the same way. */
  lemma {:induction false} WrittenCopies(u: Bytes, k: nat)
    requires k <= |u| && forall i | 0 <= i < k :: !Special(u[i])
    ensures Written(u) == u[..k] + Written(u[k..])
    decreases k
  {
    if k > 0 {
      WrittenCopies(u[1..], k - 1);
      assert u[1..][k - 1..] == u[k..];
      assert u[..k] == [u[0]] + u[1..][..k - 1];
    }
  }

  /** A string without tabs, newlines or spaces comes out unchanged. */
  lemma VisiblePlain(s: Bytes)
    requires SpecialCount(s) == 0
    ensures Visible(s) == s
  {
    NoSpecialOctet(s);
    VisibleCopies(s, |s|);
    assert s[|s|..] == [];
  }

  lemma {:induction false} NoSpecialOctet(s: Bytes)
    requires SpecialCount(s) == 0
    ensures forall i | 0 <= i < |s| :: !Special(s[i])
    decreases |s|
  {
    if s != [] {
      NoSpecialOctet(s[1..]);
      forall i | 0 < i < |s| ensures !Special(s[i]) {
        assert s[i] == s[1..][i - 1];
      }
    }
  }

  /** No rewritten octet directly follows another one. */
  predicate Spaced(s: Bytes) {
    forall i | 0 < i < |s| :: Special(s[i - 1]) ==> !Special(s[i])
  }

  /** The loop as written gives the intended output exactly when no two rewritten octets touch. */
  lemma {:induction false} WrittenWhenSpaced(s: Bytes)
    requires Spaced(s)
    ensures Written(s) == Visible(s)
    decreases |s|
  {
    if |s| >= 2 && Special(s[0]) {
      assert !Special(s[1]);
      assert Spaced(s[2..]) by {
        forall i | 0 < i < |s[2..]| ensures Special(s[2..][i - 1]) ==> !Special(s[2..][i]) {
          assert s[2..][i - 1] == s[i + 1] && s[2..][i] == s[i + 2];
        }
      }
      WrittenWhenSpaced(s[2..]);
      assert s[1..][1..] == s[2..];
    } else if s != [] && !Special(s[0]) {
      assert Spaced(s[1..]) by {
        forall i | 0 < i < |s[1..]| ensures Special(s[1..][i - 1]) ==> !Special(s[1..][i]) {
          assert s[1..][i - 1] == s[i] && s[1..][i] == s[i + 1];
        }
      }
      WrittenWhenSpaced(s[1..]);
    }
  }

  /** Two tabs come out as an arrow followed by a raw tab. */
  lemma WrittenMissesSecondTab()
    ensures Written([0x09, 0x09]) == [0xE2, 0x86, 0x92, 0x09]
    ensures Visible([0x09, 0x09]) == [0xE2, 0x86, 0x92, 0xE2, 0x86, 0x92]
  {
    var s: Bytes := [0x09, 0x09];
    assert s[2..] == [] && s[1..] == [0x09];
    assert Visible(s[1..]) == ARROW + Visible(s[1..][1..]);
  }

  /**
   * `g_utf8_find_next_char(r + p, r + |r|) - r`: the next octet after `p` that
   * is not a UTF-8 continuation octet, or `|r|` where glib returns NULL.
   */
  function FindNext(r: Bytes, p: nat): (q: nat)
    requires p <= |r|
    ensures q <= |r| && (q > p || q == |r|)
    ensures forall i | p < i < q :: Utf8.Tail(r[i])
    decreases |r| - p
  {
    if p + 1 >= |r| then |r|
    else if Utf8.Tail(r[p + 1]) then FindNext(r, p + 1)
    else p + 1
  }

  /** The loop's position moves over continuation octets, which both readings copy. */
  lemma StepOver(out: Bytes, u: Bytes, k: nat)
    requires k <= |u| && forall i | 0 <= i < k :: Utf8.Tail(u[i])
    ensures out + Visible(u) == (out + u[..k]) + Visible(u[k..])
    ensures out + Written(u) == (out + u[..k]) + Written(u[k..])
  {
    VisibleCopies(u, k);
    WrittenCopies(u, k);
    Assoc(out, u[..k], Visible(u[k..]));
    Assoc(out, u[..k], Written(u[k..]));
  }

  lemma Assoc<T>(a: seq<T>, b: seq<T>, c: seq<T>)
    ensures a + (b + c) == (a + b) + c
  {
  }

  /** One examined octet, as the loop as written treats it. */
  lemma WrittenStep(out: Bytes, u: Bytes)
    requires u != []
    ensures !Special(u[0]) ==> out + Written(u) == (out + [u[0]]) + Written(u[1..])
    ensures Special(u[0]) && |u| == 1 ==> out + Written(u) == out + Glyph(u[0])
    ensures Special(u[0]) && |u| > 1 ==> out + Written(u) == (out + Glyph(u[0]) + [u[1]]) + Written(u[2..])
  {
    if !Special(u[0]) {
      Assoc(out, [u[0]], Written(u[1..]));
    } else if |u| == 1 {
      assert Written(u) == Glyph(u[0]) + [];
    } else {
      var g := Glyph(u[0]);
      assert Written(u) == g + ([u[1]] + Written(u[2..]));
      Assoc(out, g, [u[1]] + Written(u[2..]));
      Assoc(out + g, [u[1]], Written(u[2..]));
    }
  }

  /** One examined octet, as the intended loop treats it. */
  lemma VisibleStep(out: Bytes, u: Bytes)
    requires u != []
    ensures out + Visible(u) == (out + (if Special(u[0]) then Glyph(u[0]) else [u[0]])) + Visible(u[1..])
  {
    Assoc(out, if Special(u[0]) then Glyph(u[0]) else [u[0]], Visible(u[1..]));
  }

  /** `*p = glyph[0]` followed by `g_string_insert(s, p - s + 1, glyph + 1)`. */
  method PutGlyph(r: Bytes, p: nat, g: Bytes) returns (r': Bytes)
    requires p < |r| && |g| == 3
    ensures r' == r[..p] + g + r[p + 1..]
  {
    r' := r[..p] + [g[0]] + r[p + 1..];
    r' := r'[..p + 1] + g[1..] + r'[p + 1..];
    assert r'[..p + 1] == r[..p] + [g[0]];
  }

  /** The buffer seen as what has been produced followed by what is still to be examined. */
  lemma Regroup(out: Bytes, u: Bytes, k: nat)
    requires k <= |u|
    ensures out + u == (out + u[..k]) + u[k..]
    ensures forall i | 0 <= i < k :: (out + u)[|out| + i] == u[i]
    ensures (out + u)[..|out|] == out && (out + u)[|out| + k..] == u[k..]
  {
    assert u == u[..k] + u[k..];
  }

  /**
   * `convert_nonprinting_characters` as written: after a replacement the
   * position is set past the inserted glyph, and the step to the next character
   * then skips the octet found there.
   */
  method ConvertNonprintingAsWritten(s: Bytes) returns (r: Bytes)
    ensures r == Written(s)
  {
    r := s;
    var p: nat := 0;
    ghost var out: Bytes := [];
    ghost var rest := s;
    while p < |r|
      invariant r == out + rest && p == |out|
      invariant out + Written(rest) == Written(s)
      decreases |rest|
    {
      var b := r[p];
      Regroup(out, rest, 1);
      assert b == rest[0] && rest[..1] == [b];
      WrittenStep(out, rest);
      if Special(b) {
        var g := Glyph(b);
        r := PutGlyph(r, p, g);
        p := p + 3;
        if |rest| > 1 {
          Regroup(out + g, rest[1..], 1);
          assert rest[1..][..1] == [rest[1]] && rest[1..][1..] == rest[2..];
          out, rest := out + g + [rest[1]], rest[2..];
        } else {
          assert rest[1..] == [];
          out, rest := out + g, [];
        }
      } else {
        out, rest := out + [b], rest[1..];
      }
      var q := FindNext(r, p);
      ghost var k := q - |out|;
      Regroup(out, rest, k);
      StepOver(out, rest, k);
      out, rest := out + rest[..k], rest[k..];
      p := q;
    }
  }

  /**
   * `convert_nonprinting_characters` with the position set on the last octet of
   * the inserted glyph, so that the step to the next character lands on the
   * octet that followed the replaced one.
   */
  method ConvertNonprinting(s: Bytes) returns (r: Bytes)
    ensures r == Visible(s)
  {
    r := s;
    var p: nat := 0;
    ghost var out: Bytes := [];
    ghost var rest := s;
    while p < |r|
      invariant r == out + rest && p == |out|
      invariant out + Visible(rest) == Visible(s)
      decreases |rest|
    {
      var b := r[p];
      Regroup(out, rest, 1);
      assert b == rest[0] && rest[..1] == [b];
      VisibleStep(out, rest);
      if Special(b) {
        var g := Glyph(b);
        r := PutGlyph(r, p, g);
        p := p + 2;
        out := out + g;
      } else {
        out := out + [b];
      }
      rest := rest[1..];
      var q := FindNext(r, p);
      ghost var k := q - |out|;
      Regroup(out, rest, k);
      StepOver(out, rest, k);
      out, rest := out + rest[..k], rest[k..];
      p := q;
    }
  }

  // ---------------------------------------------------------------- ellipsizing

  /** The values of `PangoEllipsizeMode` the `ellipsize` preference selects. */
  const ELLIPSIZE_START: int32 := 1
  const ELLIPSIZE_MIDDLE: int32 := 2
  const ELLIPSIZE_END: int32 := 3

  const DOTS: Bytes := [0x2E, 0x2E, 0x2E]

  /** A menu label and the tooltip attached to it, if any. */
  datatype Shaped = Shaped(text: Bytes, tooltip: Option<Bytes>)

  /** The tooltip of a long entry as written: its first `len - 4 * itemLength` characters. */
  function TooltipAsWritten(s: Bytes, itemLength: nat): Bytes {
    var len := Strlen(s);
    if len > itemLength * 4 then s[..Offset(s, len - itemLength * 4)] else s
  }

  /** The tooltip evidently meant: the text, cut after its first `4 * itemLength` characters. */
  function Tooltip(s: Bytes, itemLength: nat): Bytes {
    var len := Strlen(s);
    if len > itemLength * 4 then s[..Offset(s, itemLength * 4)] else s
  }

  /**
   * The ellipsizing step of the menu builder: a text of more than `itemLength`
   * characters gets a tooltip and a label cut to `itemLength` characters plus
   * "..." at the start, in the middle or at the end; any other mode keeps the
   * label. `itemLength * 4` is computed in a `gint32`, so it must not wrap.
   */
  function Ellipsize(s: Bytes, itemLength: nat, mode: int32): Shaped
    requires 4 * itemLength < 0x8000_0000
  {
    var len := Strlen(s);
    if len <= itemLength then Shaped(s, None)
    else
      var half := itemLength / 2;
      var shown :=
        if mode == ELLIPSIZE_START then DOTS + s[Offset(s, len - itemLength)..]
        else if mode == ELLIPSIZE_MIDDLE then s[..Offset(s, half)] + DOTS + s[Offset(s, len - half)..]
        else if mode == ELLIPSIZE_END then s[..Offset(s, itemLength)] + DOTS
        else s;
      Shaped(shown, Some(Tooltip(s, itemLength)))
  }

  /** A text no longer than the limit is shown as it is, without a tooltip. */
  lemma EllipsizeShort(s: Bytes, itemLength: nat, mode: int32)
    requires Whole(s) && 4 * itemLength < 0x8000_0000 && |Chars(s)| <= itemLength
    ensures Ellipsize(s, itemLength, mode) == Shaped(s, None)
  {
    WholeCount(s);
  }

  /** START: "..." and then the last `itemLength` characters. */
  lemma EllipsizeStart(s: Bytes, itemLength: nat)
    requires Whole(s) && 4 * itemLength < 0x8000_0000 && |Chars(s)| > itemLength
    ensures var cs := Chars(s);
      Ellipsize(s, itemLength, ELLIPSIZE_START).text == DOTS + Flatten(cs[|cs| - itemLength..]) &&
      |cs[|cs| - itemLength..]| == itemLength
  {
    WholeCount(s);
    OffsetSuffix(s, |Chars(s)| - itemLength);
  }

  /** MIDDLE: the first and the last `itemLength / 2` characters around "...". */
  lemma EllipsizeMiddle(s: Bytes, itemLength: nat)
    requires Whole(s) && 4 * itemLength < 0x8000_0000 && |Chars(s)| > itemLength
    ensures var cs := Chars(s); var half := itemLength / 2;
      Ellipsize(s, itemLength, ELLIPSIZE_MIDDLE).text == Flatten(cs[..half]) + DOTS + Flatten(cs[|cs| - half..]) &&
      |cs[..half]| == |cs[|cs| - half..]| == half
  {
    WholeCount(s);
    OffsetPrefix(s, itemLength / 2);
    OffsetSuffix(s, |Chars(s)| - itemLength / 2);
  }

  /** END: the first `itemLength` characters and then "...". */
  lemma EllipsizeEnd(s: Bytes, itemLength: nat)
    requires Whole(s) && 4 * itemLength < 0x8000_0000 && |Chars(s)| > itemLength
    ensures var cs := Chars(s);
      Ellipsize(s, itemLength, ELLIPSIZE_END).text == Flatten(cs[..itemLength]) + DOTS &&
      |cs[..itemLength]| == itemLength
  {
    WholeCount(s);
    OffsetPrefix(s, itemLength);
  }

  /** Any other mode keeps the label; every long text gets its first `4 * itemLength` characters (at most) as tooltip. */
  lemma EllipsizeTooltip(s: Bytes, itemLength: nat, mode: int32)
    requires Whole(s) && 4 * itemLength < 0x8000_0000 && |Chars(s)| > itemLength
    ensures var r := Ellipsize(s, itemLength, mode); var cs := Chars(s);
      (mode != ELLIPSIZE_START && mode != ELLIPSIZE_MIDDLE && mode != ELLIPSIZE_END ==> r.text == s) &&
      r.tooltip == Some(Flatten(cs[..if |cs| > 4 * itemLength then 4 * itemLength else |cs|]))
  {
    WholeCount(s);
    var cs := Chars(s);
    if |cs| > 4 * itemLength {
      OffsetPrefix(s, 4 * itemLength);
    } else {
      CharsFlatten(s);
      assert cs[..|cs|] == cs;
    }
  }

  lemma PrintableSlices(s: Bytes, p: nat)
    requires Printable(s) && p <= |s|
    ensures Printable(s[..p]) && Printable(s[p..])
  {
    forall i | 0 <= i < |s| - p ensures !Special(s[p..][i]) {
      assert s[p..][i] == s[p + i];
    }
  }

  lemma PrintableConcat(a: Bytes, b: Bytes)
    requires Printable(a) && Printable(b)
    ensures Printable(a + b)
  {
    forall i | 0 <= i < |a + b| ensures !Special((a + b)[i]) {
      if i >= |a| { assert (a + b)[i] == b[i - |a|]; }
    }
  }

  /** Ellipsizing a printable text leaves it printable: it only cuts it and adds dots. */
  lemma EllipsizePrintable(s: Bytes, itemLength: nat, mode: int32)
    requires 4 * itemLength < 0x8000_0000 && Printable(s)
    ensures Printable(Ellipsize(s, itemLength, mode).text)
  {
    var len := Strlen(s);
    var r := Ellipsize(s, itemLength, mode).text;
    assert Printable(DOTS);
    if len > itemLength {
      var half := itemLength / 2;
      if mode == ELLIPSIZE_START {
        PrintableSlices(s, Offset(s, len - itemLength));
        PrintableConcat(DOTS, s[Offset(s, len - itemLength)..]);
      } else if mode == ELLIPSIZE_MIDDLE {
        var a, b := s[..Offset(s, half)], s[Offset(s, len - half)..];
        PrintableSlices(s, Offset(s, half));
        PrintableSlices(s, Offset(s, len - half));
        PrintableConcat(a, DOTS);
        PrintableConcat(a + DOTS, b);
      } else if mode == ELLIPSIZE_END {
        PrintableSlices(s, Offset(s, itemLength));
        PrintableConcat(s[..Offset(s, itemLength)], DOTS);
      }
    }
  }

  /** As written, the tooltip of a long text is its first `len - 4 * itemLength` characters. */
  lemma TooltipAsWrittenSpec(s: Bytes, itemLength: nat)
    requires Whole(s) && |Chars(s)| > 4 * itemLength
    ensures TooltipAsWritten(s, itemLength) == Flatten(Chars(s)[..|Chars(s)| - 4 * itemLength])
  {
    WholeCount(s);
    OffsetPrefix(s, |Chars(s)| - 4 * itemLength);
  }

  /** A six-character entry with a one-character limit: "ab" as written, "abcd" as meant. */
  lemma TooltipAsWrittenTooShort()
    ensures TooltipAsWritten([0x61, 0x62, 0x63, 0x64, 0x65, 0x66], 1) == [0x61, 0x62]
    ensures Tooltip([0x61, 0x62, 0x63, 0x64, 0x65, 0x66], 1) == [0x61, 0x62, 0x63, 0x64]
  {
    var s: Bytes := [0x61, 0x62, 0x63, 0x64, 0x65, 0x66];
    AsciiChars(s);
    assert Offset(s, 2) == 2 && Offset(s, 4) == 4;
  }

  // ---------------------------------------------------------------- line breaks

  /** The label with every newline octet taken out and the other octets kept in order. */
  function NoNewlines(s: Bytes): Bytes
    decreases |s|
  {
    if s == [] then [] else (if s[0] == 0x0A then [] else [s[0]]) + NoNewlines(s[1..])
  }

  function NewlineCount(s: Bytes): (n: nat)
    ensures n <= |s|
    decreases |s|
  {
    if s == [] then 0 else (if s[0] == 0x0A then 1 else 0) + NewlineCount(s[1..])
  }

  lemma {:induction false} NoNewlinesAppend(a: Bytes, b: Bytes)
    ensures NoNewlines(a + b) == NoNewlines(a) + NoNewlines(b)
    decreases |a|
  {
    if a == [] {
      assert a + b == b;
    } else {
      var h := if a[0] == 0x0A then [] else [a[0]];
      assert (a + b)[0] == a[0] && (a + b)[1..] == a[1..] + b;
      NoNewlinesAppend(a[1..], b);
      assert NoNewlines(a + b) == h + NoNewlines(a[1..] + b);
      Assoc(h, NoNewlines(a[1..]), NoNewlines(b));
    }
  }

  /** No newline is left, and exactly the newlines are gone. */
  lemma {:induction false} NoNewlinesSpec(s: Bytes)
    ensures forall i | 0 <= i < |NoNewlines(s)| :: NoNewlines(s)[i] != 0x0A
    ensures |NoNewlines(s)| == |s| - NewlineCount(s)
    decreases |s|
  {
    if s != [] {
      NoNewlinesSpec(s[1..]);
      var head := if s[0] == 0x0A then [] else [s[0]];
      forall i | 0 <= i < |NoNewlines(s)| ensures NoNewlines(s)[i] != 0x0A {
        if i >= |head| {
          assert NoNewlines(s)[i] == NoNewlines(s[1..])[i - |head|];
        }
      }
    }
  }

  /** No tab, newline or space anywhere in the octets. */
  predicate Printable(s: Bytes) {
    forall i | 0 <= i < |s| :: !Special(s[i])
  }

  /** Taking newlines out adds no tab, newline or space. */
  lemma {:induction false} NoNewlinesPrintable(s: Bytes)
    requires Printable(s)
    ensures Printable(NoNewlines(s))
    decreases |s|
  {
    if s != [] {
      assert Printable(s[1..]) by {
        forall i | 0 <= i < |s[1..]| ensures !Special(s[1..][i]) {
          assert s[1..][i] == s[i + 1];
        }
      }
      NoNewlinesPrintable(s[1..]);
      var head := if s[0] == 0x0A then [] else [s[0]];
      forall i | 0 <= i < |NoNewlines(s)| ensures !Special(NoNewlines(s)[i]) {
        if i >= |head| {
          assert NoNewlines(s)[i] == NoNewlines(s[1..])[i - |head|];
        }
      }
    }
  }

  /** A label without newlines is left as it is; so stripping twice is stripping once. */
  lemma {:induction false} NoNewlinesKeeps(s: Bytes)
    requires forall i | 0 <= i < |s| :: s[i] != 0x0A
    ensures NoNewlines(s) == s
    decreases |s|
  {
    if s != [] {
      NoNewlinesKeeps(s[1..]);
    }
  }

  lemma NoNewlinesIdempotent(s: Bytes)
    ensures NoNewlines(NoNewlines(s)) == NoNewlines(s)
  {
    NoNewlinesSpec(s);
    NoNewlinesKeeps(NoNewlines(s));
  }

  /** A run of newlines contributes nothing. */
  lemma {:induction false} NoNewlinesDrop(u: Bytes, n: nat)
    requires n <= |u| && forall k | 0 <= k < n :: u[k] == 0x0A
    ensures NoNewlines(u) == NoNewlines(u[n..])
    decreases n
  {
    if n > 0 {
      NoNewlinesDrop(u[1..], n - 1);
      assert u[1..][n - 1..] == u[n..];
    }
  }

  /**
   * The loop that removes control characters from a label: at each position it
   * counts the run of newlines there and erases it, or moves on. (The run test
   * reads the octet before comparing the index; at the end of the string that
   * octet is the terminating NUL, which is not a newline.)
   */
  method StripNewlines(s: Bytes) returns (r: Bytes)
    ensures r == NoNewlines(s)
  {
    r := s;
    var i: nat := 0;
    while i < |r|
      invariant i <= |r|
      invariant r[..i] + NoNewlines(r[i..]) == NoNewlines(s)
      decreases |r| - i
    {
      var n: nat := 0;
      while i + n < |r| && r[i + n] == 0x0A
        invariant i + n <= |r|
        invariant forall k | i <= k < i + n :: r[k] == 0x0A
      {
        n := n + 1;
      }
      if n > 0 {
        ghost var u := r[i..];
        NoNewlinesDrop(u, n);
        assert u[n..] == r[i + n..];
        r := r[..i] + r[i + n..];
        assert r[..i] == u[..0] + r[..i] && r[i..] == u[n..];
      } else {
        assert r[i..] == [r[i]] + r[i + 1..];
        assert r[..i + 1] == r[..i] + [r[i]];
        i := i + 1;
      }
    }
    assert r[i..] == [];
  }
}
