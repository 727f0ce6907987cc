/**
 * The binary history file: a 32-byte magic block, one framed record per entry
 * with a non-empty text, and a 4-byte zero terminator. Integers are stored in
 * the byte order of the machine; this model fixes it to little-endian.
 *
 * A record is: total size (text length + 36) as 4 bytes, then the 32-byte packed
 * `struct history_item` (len 4, type 2, flags 2, reserved 16, first 8 text bytes),
 * then the text itself.
 */
module HistoryFile {
  import opened Common
  import opened Utf8
  import opened History

  const MAGIC_SIZE: nat := 32
  /** sizeof(struct history_item) */
  const ITEM_SIZE: nat := 32
  /** The record overhead: the size word plus the packed struct. */
  const FRAME_OVERHEAD: nat := 36
  const U32_LIMIT: nat := 0x1_0000_0000

  function Zeros(n: nat): (z: Bytes)
    ensures |z| == n && forall i | 0 <= i < n :: z[i] == 0
  {
    seq(n, _ => 0)
  }

  /** "1.0ParcelliteHistoryFile" padded with NULs to 32 bytes. */
  function Magic(): (m: Bytes)
    ensures |m| == MAGIC_SIZE
  {
    // '1' '.' '0' 'P' 'a' 'r' 'c' 'e' 'l' 'l' 'i' 't' 'e' 'H' 'i' 's' 't' 'o' 'r' 'y' 'F' 'i' 'l' 'e'
    [0x31, 0x2E, 0x30, 0x50, 0x61, 0x72, 0x63, 0x65, 0x6C, 0x6C, 0x69, 0x74,
     0x65, 0x48, 0x69, 0x73, 0x74, 0x6F, 0x72, 0x79, 0x46, 0x69, 0x6C, 0x65] + Zeros(8)
  }

  function U16(x: uint16): (b: Bytes)
    ensures |b| == 2
  {
    [(x as int % 256) as byte, (x as int / 256) as byte]
  }

  function U32(x: nat): (b: Bytes)
    requires x < U32_LIMIT
    ensures |b| == 4
  {
    var q1 := x / 256;
    var q2 := q1 / 256;
    [(x % 256) as byte, (q1 % 256) as byte, (q2 % 256) as byte, (q2 / 256) as byte]
  }

  function U16At(f: Bytes, p: nat): (x: uint16)
    requires p + 2 <= |f|
  {
    (f[p] as int + 256 * f[p + 1] as int) as uint16
  }

  function U32At(f: Bytes, p: nat): (x: nat)
    requires p + 4 <= |f|
    ensures x < U32_LIMIT
  {
    f[p] as int + 256 * (f[p + 1] as int + 256 * (f[p + 2] as int + 256 * f[p + 3] as int))
  }

  lemma U16Reads(f: Bytes, p: nat, x: uint16)
    requires p + 2 <= |f| && f[p..p + 2] == U16(x)
    ensures U16At(f, p) == x
  {
    assert f[p] == U16(x)[0] && f[p + 1] == U16(x)[1];
  }

  lemma U32Reads(f: Bytes, p: nat, x: nat)
    requires x < U32_LIMIT
    requires p + 4 <= |f| && f[p..p + 4] == U32(x)
    ensures U32At(f, p) == x
  {
    var b := U32(x);
    assert f[p] == b[0] && f[p + 1] == b[1] && f[p + 2] == b[2] && f[p + 3] == b[3];
    var q1 := x / 256;
    var q2 := q1 / 256;
    assert x == x % 256 + 256 * q1;
    assert q1 == q1 % 256 + 256 * q2;
    assert q2 == q2 % 256 + 256 * (q2 / 256);
  }

  /** The first eight bytes of the text, NUL-padded: the `text[8]` member of the packed struct. */
  function TextHead(t: Bytes): (b: Bytes)
    ensures |b| == 8
  {
    if |t| >= 8 then t[..8] else t + Zeros(8 - |t|)
  }

  /** `fwrite(c, sizeof(struct history_item), 1, f)`: the length field holds `|text|`. */
  function Header(e: Entry): (b: Bytes)
    ensures |b| == ITEM_SIZE
  {
    U32(|e.text| % U32_LIMIT) + U16(e.kind) + U16(e.flags) + Zeros(16) + TextHead(e.text)
  }

  /** One record as `save_history` writes it; the 32-bit fields wrap modulo 2^32. */
  function Frame(e: Entry): (b: Bytes)
    ensures |b| == FRAME_OVERHEAD + |e.text|
  {
    U32((|e.text| + FRAME_OVERHEAD) % U32_LIMIT) + Header(e) + e.text
  }

  /** An entry `save_history` can write: its length fits the 32-bit fields. */
  predicate Writable(e: Entry) {
    |e.text| + FRAME_OVERHEAD < U32_LIMIT
  }

  /** The records of every entry with a non-empty text, in list order. */
  function Frames(h: seq<Entry>): Bytes
  {
    if h == [] then []
    else (if |h[0].text| > 0 then Frame(h[0]) else []) + Frames(h[1..])
  }

  lemma {:induction false} FramesSnoc(h: seq<Entry>, e: Entry)
    ensures Frames(h + [e]) == Frames(h) + (if |e.text| > 0 then Frame(e) else [])
  {
    if h == [] {
      assert [] + [e] == [e];
      assert Frames([e]) == (if |e.text| > 0 then Frame(e) else []) + Frames([]);
    } else {
      assert (h + [e])[1..] == h[1..] + [e];
      assert (h + [e])[0] == h[0];
      FramesSnoc(h[1..], e);
    }
  }

  /** The whole file `save_history` writes for the list `h`. */
  function Encode(h: seq<Entry>): (f: Bytes)
  {
    Magic() + Frames(h) + U32(0)
  }

  /**
   * The writing loop of `save_history`: the magic block, then a record for each
   * entry with a non-empty text, then the zero terminator.
   */
  method WriteHistoryFile(h: seq<Entry>) returns (out: Bytes)
    ensures out == Encode(h)
  {
    out := Magic();
    var records: Bytes := [];
    var i := 0;
    while i < |h|
      invariant 0 <= i <= |h|
      invariant records == Frames(h[..i])
      invariant out == Magic()
    {
      var c := h[i];
      assert h[..i + 1] == h[..i] + [c];
      FramesSnoc(h[..i], c);
      if |c.text| > 0 {
        records := records + Frame(c);
      }
      i := i + 1;
    }
    assert h[..i] == h;
    out := out + records + U32(0);
  }

  /** The outcome of one pass of the `read_history` loop. */
  datatype Step = Stop | Skip(next: nat) | Record(entry: Entry, next: nat)

  /**
   * How far past the text the `g_malloc0(size + 1)` block of a record reaches:
   * `c->text` sits at offset 24, so `end + 13` bytes are addressable from it.
   */
  const SLACK: nat := 12

  /**
   * The bytes from `c->text` on once a record's text is read: the `end` text
   * bytes, the NUL stored at `text[end]`, then what the struct read left in
   * `text[end + 1..8]` and the zeros of `g_malloc0` up to the end of the block.
   */
  function TextBuffer(f: Bytes, pos: nat, end: nat): (b: Bytes)
    requires pos + FRAME_OVERHEAD + end <= |f|
    ensures |b| == end + SLACK + 1
    ensures b[..end] == f[pos + FRAME_OVERHEAD..pos + FRAME_OVERHEAD + end] && b[end] == 0
    ensures forall i | end < i < |b| :: b[i] == (if i < 8 then f[pos + 28 + i] else 0)
  {
    var start := pos + FRAME_OVERHEAD;
    f[start..start + end] + [0] + seq(SLACK, k requires 0 <= k => if end + 1 + k < 8 then f[pos + 29 + end + k] else 0)
  }

  /**
   * One pass of the `read_history` loop at offset `pos`: the size word (a
   * missing or zero one ends the history), the packed struct, then `size - 36`
   * text bytes, validated as UTF-8 up to the struct's length field. A record
   * whose struct or text is cut short is dropped and the file is then at its
   * end; an empty text or one that validates to length 0 is dropped and reading
   * goes on. A length field past the text but inside the allocated block keeps
   * the bytes of the block up to it; one past the block is dropped.
   */
  function ReadRecord(f: Bytes, pos: nat): (s: Step)
    ensures s.Skip? ==> pos < s.next <= |f|
    ensures s.Record? ==> pos < s.next <= |f|
  {
    if pos + 4 > |f| then Stop
    else
      var size := U32At(f, pos);
      if size == 0 || size < FRAME_OVERHEAD || pos + FRAME_OVERHEAD > |f| then Stop
      else
        var end := size - FRAME_OVERHEAD;
        var hlen := U32At(f, pos + 4);
        var start := pos + FRAME_OVERHEAD;
        if start + end > |f| then Stop
        else if end == 0 then Skip(start)
        else if hlen > end + SLACK then Skip(start + end)
        else
          var buf := TextBuffer(f, pos, end);
          var r := ValidateUtf8Text(Some(buf), hlen);
          if r == 0 then Skip(start + end)
          else Record(Entry(U16At(f, pos + 8), U16At(f, pos + 10), buf[..r]), start + end)
  }

  /**
   * A one-byte text "a" whose length field says 2 is kept with the NUL the
   * reader stored after it: the length field is still inside the block.
   */
  lemma ReadKeepsLengthInBlock()
    ensures var f := U32(37) + U32(2) + U16(1) + U16(0) + Zeros(24) + [0x61];
      ReadRecord(f, 0) == Record(Entry(1, 0, [0x61, 0]), 37)
  {
    var f := U32(37) + U32(2) + U16(1) + U16(0) + Zeros(24) + [0x61];
    U32Reads(f, 0, 37);
    U32Reads(f, 4, 2);
    var buf := TextBuffer(f, 0, 1);
    assert buf[..2] == [0x61, 0];
    assert CStrLen(buf[..2]) == 1;
    assert IsUtf8Char([0x61]) && SplitsAt([0x61], 1);
  }

  /** The entries `read_history` reads from `f`, starting at record offset `pos`. */
  function DecodeFrom(f: Bytes, pos: nat): seq<Entry>
    decreases |f| - pos
  {
    match ReadRecord(f, pos)
    case Stop => []
    case Skip(next) => DecodeFrom(f, next)
    case Record(e, next) => [e] + DecodeFrom(f, next)
  }

  /** A file shorter than the magic block holds no history; the magic's content is not checked. */
  function DecodeFile(f: Bytes): seq<Entry> {
    if |f| < MAGIC_SIZE then [] else DecodeFrom(f, MAGIC_SIZE)
  }

  /** An entry that survives a write and a read unchanged. */
  predicate Storable(e: Entry) {
    && e.text != []
    && Writable(e)
    && Valid(CStr(e.text))
  }

  lemma ValidateStorable(t: Bytes)
    requires t != [] && Valid(CStr(t))
    ensures ValidateUtf8Text(Some(t), |t|) == |t|
  {
    assert t[..|t|] == t;
    ValidateUtf8TextSpec(Some(t), |t|);
  }

  /** Where each field sits in a record. */
  lemma FrameLayout(e: Entry)
    requires Writable(e)
    ensures var b, n := Frame(e), |e.text|;
      && b[..4] == U32(n + FRAME_OVERHEAD) && b[4..8] == U32(n)
      && b[8..10] == U16(e.kind) && b[10..12] == U16(e.flags)
      && b[FRAME_OVERHEAD..] == e.text
  {
    var n := |e.text|;
    assert (n + FRAME_OVERHEAD) % U32_LIMIT == n + FRAME_OVERHEAD;
    assert n % U32_LIMIT == n;
    var h := Header(e);
    assert h[..4] == U32(n) && h[4..6] == U16(e.kind) && h[6..8] == U16(e.flags);
  }

  lemma Window(f: Bytes, p: nat, b: Bytes, i: nat, j: nat)
    requires p + |b| <= |f| && f[p..p + |b|] == b
    requires i <= j <= |b|
    ensures f[p + i..p + j] == b[i..j]
  {
    forall k | 0 <= k < j - i ensures f[p + i..p + j][k] == b[i..j][k] {
      assert f[p + i..p + j][k] == f[p..p + |b|][i + k];
    }
  }

  /** At offset `p`, `f` holds the fields the reader looks at for a record of `e`. */
  predicate FieldsAt(f: Bytes, p: nat, e: Entry) {
    var n := |e.text|;
    && p + FRAME_OVERHEAD + n <= |f|
    && U32At(f, p) == n + FRAME_OVERHEAD && U32At(f, p + 4) == n
    && U16At(f, p + 8) == e.kind && U16At(f, p + 10) == e.flags
    && f[p + FRAME_OVERHEAD..p + FRAME_OVERHEAD + n] == e.text
  }

  /** A record written for a writable entry holds its fields where the reader looks. */
  lemma FrameFields(f: Bytes, p: nat, e: Entry)
    requires Writable(e)
    requires p + |Frame(e)| <= |f| && f[p..p + |Frame(e)|] == Frame(e)
    ensures FieldsAt(f, p, e)
  {
    var b, n := Frame(e), |e.text|;
    FrameLayout(e);
    Window(f, p, b, 0, 4);
    U32Reads(f, p, n + FRAME_OVERHEAD);
    Window(f, p, b, 4, 8);
    U32Reads(f, p + 4, n);
    Window(f, p, b, 8, 10);
    U16Reads(f, p + 8, e.kind);
    Window(f, p, b, 10, 12);
    U16Reads(f, p + 10, e.flags);
    Window(f, p, b, FRAME_OVERHEAD, |b|);
  }

  /** `validate_utf8_text` looks at no byte from `len` on. */
  lemma ValidateTake(b: Bytes, len: int)
    requires 0 < len <= |b|
    ensures ValidateUtf8Text(Some(b), len) == ValidateUtf8Text(Some(b[..len]), len)
  {
    assert b[..len][..len] == b[..len];
  }

  /** The reader returns a storable entry whose fields it finds at `p`. */
  lemma ReadFields(f: Bytes, p: nat, e: Entry)
    requires Storable(e) && FieldsAt(f, p, e)
    ensures ReadRecord(f, p) == Record(e, p + FRAME_OVERHEAD + |e.text|)
  {
    var n := |e.text|;
    var buf := TextBuffer(f, p, n);
    ValidateStorable(e.text);
    ValidateTake(buf, n);
    assert buf[..n] == e.text;
  }

  lemma DecodeRecordStep(f: Bytes, pos: nat, e: Entry, next: nat)
    requires ReadRecord(f, pos) == Record(e, next)
    ensures DecodeFrom(f, pos) == [e] + DecodeFrom(f, next)
  {
  }

  predicate AllStorable(h: seq<Entry>)
    decreases |h|
  {
    h == [] || (Storable(h[0]) && AllStorable(h[1..]))
  }

  lemma {:induction false} AllStorableOf(h: seq<Entry>)
    requires forall e | e in h :: Storable(e)
    ensures AllStorable(h)
    decreases |h|
  {
    if h != [] {
      assert h[0] in h;
      assert forall x | x in h[1..] :: x in h;
      AllStorableOf(h[1..]);
    }
  }

  /** Every entry of `h` has a non-empty text, so each gets a record. */
  predicate WithText(h: seq<Entry>)
    decreases |h|
  {
    h == [] || (h[0].text != [] && WithText(h[1..]))
  }

  lemma {:induction false} WithTextOf(h: seq<Entry>)
    requires forall e | e in h :: Storable(e)
    ensures WithText(h)
    decreases |h|
  {
    if h != [] {
      assert h[0] in h;
      assert forall x | x in h[1..] :: x in h;
      WithTextOf(h[1..]);
    }
  }

  /** From offset `p`, `f` holds the records written for `h`, then the zero terminator. */
  predicate FramesAt(f: Bytes, p: nat, h: seq<Entry>)
    decreases |h|
  {
    if h == [] then p + 4 <= |f| && f[p..p + 4] == U32(0)
    else
      var n := p + FRAME_OVERHEAD + |h[0].text|;
      n <= |f| && f[p..n] == Frame(h[0]) && FramesAt(f, n, h[1..])
  }

  /** From offset `p`, the reader finds the fields of each entry of `h` in turn, then the zero terminator. */
  predicate Stored(f: Bytes, p: nat, h: seq<Entry>)
    decreases |h|
  {
    if h == [] then p + 4 <= |f| && f[p..p + 4] == U32(0)
    else Storable(h[0]) && FieldsAt(f, p, h[0]) && Stored(f, p + FRAME_OVERHEAD + |h[0].text|, h[1..])
  }

  /** At offset `p`, `f` holds the bytes of `Frames(h)`, then the zero terminator. */
  predicate FramesIn(f: Bytes, p: nat, h: seq<Entry>) {
    var q := p + |Frames(h)|;
    q + 4 <= |f| && f[p..q] == Frames(h) && f[q..q + 4] == U32(0)
  }

  /** Two byte strings written one after the other can be read back one after the other. */
  lemma WindowSplit(f: Bytes, p: nat, x: Bytes, y: Bytes)
    requires p + |x| + |y| <= |f| && f[p..p + |x| + |y|] == x + y
    ensures f[p..p + |x|] == x && f[p + |x|..p + |x| + |y|] == y
  {
    Window(f, p, x + y, 0, |x|);
    assert (x + y)[0..|x|] == x;
    Window(f, p, x + y, |x|, |x| + |y|);
    assert (x + y)[|x|..|x| + |y|] == y;
  }

  lemma FramesCons(h: seq<Entry>)
    requires h != [] && h[0].text != []
    ensures Frames(h) == Frame(h[0]) + Frames(h[1..])
  {
  }

  /** The first record of a non-empty list is followed by the records of the rest. */
  lemma FramesInTail(f: Bytes, p: nat, h: seq<Entry>)
    requires h != [] && h[0].text != [] && FramesIn(f, p, h)
    ensures FramesIn(f, p + FRAME_OVERHEAD + |h[0].text|, h[1..])
    ensures p + FRAME_OVERHEAD + |h[0].text| <= |f| && f[p..p + FRAME_OVERHEAD + |h[0].text|] == Frame(h[0])
  {
    var x, y := Frame(h[0]), Frames(h[1..]);
    FramesCons(h);
    assert |Frames(h)| == |x| + |y|;
    WindowSplit(f, p, x, y);
    assert p + |x| + |y| == p + |Frames(h)|;
  }

  lemma FramesAtCons(f: Bytes, p: nat, h: seq<Entry>)
    requires h != [] && p + FRAME_OVERHEAD + |h[0].text| <= |f| && f[p..p + FRAME_OVERHEAD + |h[0].text|] == Frame(h[0])
    requires FramesAt(f, p + FRAME_OVERHEAD + |h[0].text|, h[1..])
    ensures FramesAt(f, p, h)
  {
  }

  lemma FramesInStep(f: Bytes, p: nat, h: seq<Entry>)
    requires h != [] && WithText(h) && FramesIn(f, p, h)
    ensures WithText(h[1..]) && FramesIn(f, p + FRAME_OVERHEAD + |h[0].text|, h[1..])
    ensures FramesAt(f, p + FRAME_OVERHEAD + |h[0].text|, h[1..]) ==> FramesAt(f, p, h)
  {
    FramesInTail(f, p, h);
    if FramesAt(f, p + FRAME_OVERHEAD + |h[0].text|, h[1..]) {
      FramesAtCons(f, p, h);
    }
  }

  lemma FramesInNil(f: Bytes, p: nat, h: seq<Entry>)
    requires h == [] && FramesIn(f, p, h)
    ensures FramesAt(f, p, h)
  {
  }

  /** The bytes of `Frames(h)` and the terminator, split record by record. */
  lemma {:induction false} FramesInAt(f: Bytes, p: nat, h: seq<Entry>)
    requires WithText(h) && FramesIn(f, p, h)
    ensures FramesAt(f, p, h)
    decreases |h|
  {
    if h == [] {
      FramesInNil(f, p, h);
    } else {
      FramesInStep(f, p, h);
      FramesInAt(f, p + FRAME_OVERHEAD + |h[0].text|, h[1..]);
    }
  }

  lemma StoredStep(f: Bytes, p: nat, h: seq<Entry>)
    requires h != [] && AllStorable(h) && FramesAt(f, p, h)
    ensures Storable(h[0]) && FieldsAt(f, p, h[0])
    ensures AllStorable(h[1..]) && FramesAt(f, p + FRAME_OVERHEAD + |h[0].text|, h[1..])
  {
    FrameFields(f, p, h[0]);
  }

  /** The records of storable entries hold the fields the reader looks for. */
  lemma {:induction false} StoredOfFrames(f: Bytes, p: nat, h: seq<Entry>)
    requires AllStorable(h) && FramesAt(f, p, h)
    ensures Stored(f, p, h)
    decreases |h|
  {
    if h != [] {
      StoredStep(f, p, h);
      StoredOfFrames(f, p + FRAME_OVERHEAD + |h[0].text|, h[1..]);
    }
  }

  /** The zero terminator ends the history. */
  lemma DecodeTerminator(f: Bytes, p: nat)
    requires p + 4 <= |f| && f[p..p + 4] == U32(0)
    ensures DecodeFrom(f, p) == []
  {
    U32Reads(f, p, 0);
    assert ReadRecord(f, p) == Stop;
  }

  /** Reading from `p` gives back, in order, the entries whose fields are stored there. */
  lemma {:induction false} DecodeStored(f: Bytes, p: nat, h: seq<Entry>)
    requires Stored(f, p, h)
    ensures DecodeFrom(f, p) == h
    decreases |h|
  {
    if h == [] {
      DecodeTerminator(f, p);
    } else {
      var e, tail, next := h[0], h[1..], p + FRAME_OVERHEAD + |h[0].text|;
      ReadFields(f, p, e);
      DecodeRecordStep(f, p, e, next);
      DecodeStored(f, next, tail);
      assert h == [e] + tail;
    }
  }

  /** Round trip: `read_history` on the file `save_history` wrote gives back the list. */
  lemma DecodeEncode(h: seq<Entry>)
    requires forall e | e in h :: Storable(e)
    ensures DecodeFile(Encode(h)) == h
  {
    var f, q := Encode(h), MAGIC_SIZE + |Frames(h)|;
    AllStorableOf(h);
    WithTextOf(h);
    assert f[MAGIC_SIZE..q] == Frames(h);
    assert f[q..q + 4] == U32(0);
    FramesInAt(f, MAGIC_SIZE, h);
    StoredOfFrames(f, MAGIC_SIZE, h);
    DecodeStored(f, MAGIC_SIZE, h);
  }

  /**
   * The state of the `read_history` loop: the entries read so far, prepended
   * onto the list (hence reversed), then those still to come from `pos`.
   */
  ghost function Loaded(acc: seq<Entry>, f: Bytes, pos: nat): seq<Entry> {
    Reverse(acc) + DecodeFrom(f, pos)
  }

  lemma LoadedStop(acc: seq<Entry>, f: Bytes, pos: nat)
    requires ReadRecord(f, pos) == Stop
    ensures Loaded(acc, f, pos) == Reverse(acc)
  {
    assert DecodeFrom(f, pos) == [];
  }

  lemma LoadedSkip(acc: seq<Entry>, f: Bytes, pos: nat, next: nat)
    requires ReadRecord(f, pos) == Skip(next)
    ensures Loaded(acc, f, pos) == Loaded(acc, f, next)
  {
    assert DecodeFrom(f, pos) == DecodeFrom(f, next);
  }

  /** Prepending `e` to the reversed prefix moves it from the entries to come to those read. */
  lemma ReverseCons(acc: seq<Entry>, e: Entry, rest: seq<Entry>)
    ensures Reverse(acc) + ([e] + rest) == Reverse([e] + acc) + rest
  {
    ReverseAppend([e], acc);
    assert Reverse([e]) == [e];
  }

  lemma LoadedRecord(acc: seq<Entry>, f: Bytes, pos: nat, e: Entry, next: nat)
    requires ReadRecord(f, pos) == Record(e, next)
    ensures Loaded(acc, f, pos) == Loaded([e] + acc, f, next)
  {
    DecodeRecordStep(f, pos, e, next);
    ReverseCons(acc, e, DecodeFrom(f, next));
  }

  lemma DecodedEntryStorable(f: Bytes, pos: nat)
    requires MAGIC_SIZE <= pos && |f| < U32_LIMIT
    requires ReadRecord(f, pos).Record?
    ensures Storable(ReadRecord(f, pos).entry)
  {
    var size := U32At(f, pos);
    var end := size - FRAME_OVERHEAD;
    var hlen := U32At(f, pos + 4);
    var buf := TextBuffer(f, pos, end);
    var r := ValidateUtf8Text(Some(buf), hlen);
    ValidateUtf8TextSpec(Some(buf), hlen);
    var t := buf[..hlen];
    var z := CStrLen(t);
    assert buf[..r] == t[..r];
    if r == hlen {
      assert t[..r] == t;
    } else {
      assert t[..r][..r] == t[..r];
      assert NulFree(t[..z]);
      assert NulFree(t[..r]) by {
        forall i | 0 <= i < r ensures t[..r][i] != 0 {
          assert t[..r][i] == t[..z][i];
        }
      }
      CStrOfNulFree(t[..r]);
    }
  }

  /**
   * Every entry `read_history` loads from a file under 4 GiB can be written and
   * read back: non-empty, in range, and valid UTF-8 before its first NUL.
   */
  lemma {:induction false} DecodedStorable(f: Bytes, pos: nat)
    requires MAGIC_SIZE <= pos && |f| < U32_LIMIT
    ensures forall k | 0 <= k < |DecodeFrom(f, pos)| :: Storable(DecodeFrom(f, pos)[k])
    decreases |f| - pos
  {
    match ReadRecord(f, pos)
    case Stop =>
    case Skip(next) => DecodedStorable(f, next);
    case Record(e, next) =>
      DecodedStorable(f, next);
      DecodedEntryStorable(f, pos);
  }

  /** Saving what was loaded from a file under 4 GiB and loading it again gives the same list. */
  lemma LoadSaveLoad(f: Bytes)
    requires |f| < U32_LIMIT
    ensures DecodeFile(Encode(DecodeFile(f))) == DecodeFile(f)
  {
    if |f| >= MAGIC_SIZE {
      DecodedStorable(f, MAGIC_SIZE);
    }
    DecodeEncode(DecodeFile(f));
  }
}
