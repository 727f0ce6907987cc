/**
 * The clipboard history as values: the record kept for each clipboard text, and the
 * list operations the history store performs on it (dedup insertion, truncation,
 * clearing, plain-text export), each with the properties the store promises.
 */
module History {
  import opened Common

  const CLIP_TYPE_TEXT: uint16 := 1
  const CLIP_TYPE_IMG: uint16 := 2
  const CLIP_TYPE_PERSISTENT: uint16 := 4

  /**
   * One `struct history_item`: its `type` and `flags` fields (as 16-bit patterns)
   * and its text. The record's `len` field is always `|text|`.
   */
  datatype Entry = Entry(kind: uint16, flags: uint16, text: Bytes)

  /** PINNED(item): the CLIP_TYPE_PERSISTENT bit of the flags. */
  predicate Pinned(e: Entry) {
    (e.flags as int / 4) % 2 == 1
  }

  /** What `find_duplicate_text_item` looks for: a TEXT entry whose C string equals `t`. */
  predicate MatchesText(e: Entry, t: CString) {
    e.kind == CLIP_TYPE_TEXT && CStr(e.text) == t
  }

  /** Two TEXT entries that the dedup check cannot tell apart. */
  predicate SameText(x: Entry, y: Entry) {
    x.kind == CLIP_TYPE_TEXT && y.kind == CLIP_TYPE_TEXT && CStr(x.text) == CStr(y.text)
  }

  /** No two TEXT entries of the list share a text. */
  predicate UniqueTexts(h: seq<Entry>) {
    forall i, j | 0 <= i < j < |h| :: !SameText(h[i], h[j])
  }

  /** The entries whose pinned state is `pinned`, in list order. */
  function Keep(h: seq<Entry>, pinned: bool): (r: seq<Entry>)
    ensures |r| <= |h|
  {
    if h == [] then []
    else (if Pinned(h[0]) == pinned then [h[0]] else []) + Keep(h[1..], pinned)
  }

  /** Every kept entry comes from the list and has the requested pinned state. */
  lemma {:induction false} KeepMembers(h: seq<Entry>, pinned: bool)
    ensures forall e | e in Keep(h, pinned) :: e in h && Pinned(e) == pinned
  {
    if h != [] {
      KeepMembers(h[1..], pinned);
    }
  }

  function PinnedOnly(h: seq<Entry>): seq<Entry> {
    Keep(h, true)
  }

  function UnpinnedOnly(h: seq<Entry>): seq<Entry> {
    Keep(h, false)
  }

  function UnpinnedCount(h: seq<Entry>): nat {
    |UnpinnedOnly(h)|
  }

  lemma {:induction false} KeepAppend(a: seq<Entry>, b: seq<Entry>, pinned: bool)
    ensures Keep(a + b, pinned) == Keep(a, pinned) + Keep(b, pinned)
  {
    if a != [] {
      assert (a + b)[0] == a[0];
      assert (a + b)[1..] == a[1..] + b;
      KeepAppend(a[1..], b, pinned);
     } else {
      assert a + b == b;
    }
  }

  lemma {:induction false} KeepSplitsLength(h: seq<Entry>)
    ensures |PinnedOnly(h)| + UnpinnedCount(h) == |h|
  {
    if h != [] {
      KeepSplitsLength(h[1..]);
    }
  }

  lemma {:induction false} KeepAll(h: seq<Entry>, pinned: bool)
    requires forall k | 0 <= k < |h| :: Pinned(h[k]) == pinned
    ensures Keep(h, pinned) == h
  {
    if h != [] {
      KeepAll(h[1..], pinned);
    }
  }

  lemma {:induction false} NoUnpinnedMeansAllPinned(h: seq<Entry>)
    requires UnpinnedCount(h) == 0
    ensures forall k | 0 <= k < |h| :: Pinned(h[k])
  {
    if h != [] {
      NoUnpinnedMeansAllPinned(h[1..]);
      assert forall k | 1 <= k < |h| :: h[k] == h[1..][k - 1];
    }
  }

  /** Removing one unpinned entry leaves the pinned entries as they were. */
  lemma RemoveUnpinned(h: seq<Entry>, i: nat)
    requires i < |h| && !Pinned(h[i])
    ensures PinnedOnly(h[..i] + h[i + 1..]) == PinnedOnly(h)
  {
    assert h == h[..i] + [h[i]] + h[i + 1..];
    KeepAppend(h[..i] + [h[i]], h[i + 1..], true);
    KeepAppend(h[..i], [h[i]], true);
    KeepAppend(h[..i], h[i + 1..], true);
  }

  lemma KeepIdempotent(h: seq<Entry>, pinned: bool)
    ensures Keep(Keep(h, pinned), pinned) == Keep(h, pinned)
  {
    var r := Keep(h, pinned);
    KeepMembers(h, pinned);
    forall k | 0 <= k < |r| ensures Pinned(r[k]) == pinned {
      assert r[k] in r;
    }
    KeepAll(r, pinned);
  }

  // ---------------------------------------------------------------- insertion

  /** Index of the first entry matching `t`, or -1 (`find_duplicate_text_item`). */
  function FirstMatch(h: seq<Entry>, t: Option<CString>): (i: int)
    ensures -1 <= i < |h|
    ensures t.None? ==> i == -1
    ensures i >= 0 ==> MatchesText(h[i], t.value) && forall k | 0 <= k < i :: !MatchesText(h[k], t.value)
    ensures i == -1 && t.Some? ==> forall k | 0 <= k < |h| :: !MatchesText(h[k], t.value)
    decreases |h|
  {
    if t.None? || h == [] then -1
    else if MatchesText(h[0], t.value) then 0
    else
      var j := FirstMatch(h[1..], t);
      assert forall k | 1 <= k < |h| :: h[k] == h[1..][k - 1];
      if j < 0 then -1 else j + 1
  }

  /** The entry `new_clip_item(CLIP_TYPE_TEXT, strlen(t), t)` with the given flags. */
  function NewTextEntry(t: CString, flags: uint16): Entry {
    Entry(CLIP_TYPE_TEXT, flags, t)
  }

  /**
   * The list after `history_add_text_item(t, flags)`, before truncation: the first
   * matching entry (pinned or not) is unlinked and put in front unchanged, or a new
   * entry with `flags` is put in front.
   */
  function AddText(h: seq<Entry>, t: CString, flags: uint16): seq<Entry> {
    var i := FirstMatch(h, Some(t));
    if i >= 0 then [h[i]] + h[..i] + h[i + 1..] else [NewTextEntry(t, flags)] + h
  }

  /** The entries that do not match `t`, in order. */
  function Others(h: seq<Entry>, t: CString): seq<Entry> {
    if h == [] then []
    else (if MatchesText(h[0], t) then [] else [h[0]]) + Others(h[1..], t)
  }

  lemma {:induction false} OthersAppend(a: seq<Entry>, b: seq<Entry>, t: CString)
    ensures Others(a + b, t) == Others(a, t) + Others(b, t)
  {
    if a != [] {
      assert (a + b)[0] == a[0];
      assert (a + b)[1..] == a[1..] + b;
      OthersAppend(a[1..], b, t);
     } else {
      assert a + b == b;
    }
  }

  /** Number of entries matching `t`. */
  function MatchCount(h: seq<Entry>, t: CString): nat {
    if h == [] then 0 else (if MatchesText(h[0], t) then 1 else 0) + MatchCount(h[1..], t)
  }

  lemma {:induction false} MatchCountAppend(a: seq<Entry>, b: seq<Entry>, t: CString)
    ensures MatchCount(a + b, t) == MatchCount(a, t) + MatchCount(b, t)
  {
    if a != [] {
      assert (a + b)[0] == a[0];
      assert (a + b)[1..] == a[1..] + b;
      MatchCountAppend(a[1..], b, t);
     } else {
      assert a + b == b;
    }
  }

  lemma {:induction false} NoMatchCountZero(h: seq<Entry>, t: CString)
    requires forall k | 0 <= k < |h| :: !MatchesText(h[k], t)
    ensures MatchCount(h, t) == 0
  {
    if h != [] {
      assert forall k | 0 <= k < |h| - 1 :: h[1..][k] == h[k + 1];
      NoMatchCountZero(h[1..], t);
    }
  }

  /**
   * After the insertion the front entry matches `t`; when a match existed it is
   * that same entry with its own flags (the `flags` argument is ignored), and
   * otherwise it is a new TEXT entry carrying `flags`. Every entry that does not
   * match `t` keeps its relative order, and nothing else is added or lost.
   */
  lemma AddTextFront(h: seq<Entry>, t: CString, flags: uint16)
    ensures var r := AddText(h, t, flags);
      && r != [] && MatchesText(r[0], t)
      && (FirstMatch(h, Some(t)) >= 0 ==> r[0] == h[FirstMatch(h, Some(t))] && |r| == |h| && multiset(r) == multiset(h))
      && (FirstMatch(h, Some(t)) < 0 ==> r[0] == NewTextEntry(t, flags) && r[1..] == h)
      && Others(r, t) == Others(h, t)
  {
    var i := FirstMatch(h, Some(t));
    if i >= 0 {
      MoveToFrontOthers(h, t, i);
      MoveToFrontMultiset(h, i);
    } else {
      var r := AddText(h, t, flags);
      CStrOfNulFree(t);
      assert r == [NewTextEntry(t, flags)] + h;
      assert r[1..] == h;
      OthersAppend([NewTextEntry(t, flags)], h, t);
    }
  }

  /** Moving a match of `t` to the front leaves the other entries in order. */
  lemma MoveToFrontOthers(h: seq<Entry>, t: CString, i: nat)
    requires i < |h| && MatchesText(h[i], t)
    ensures Others([h[i]] + h[..i] + h[i + 1..], t) == Others(h, t)
  {
    assert h == h[..i] + [h[i]] + h[i + 1..];
    OthersAppend([h[i]] + h[..i], h[i + 1..], t);
    OthersAppend([h[i]], h[..i], t);
    OthersAppend(h[..i] + [h[i]], h[i + 1..], t);
    OthersAppend(h[..i], [h[i]], t);
  }

  /** Moving an entry to the front loses and adds nothing. */
  lemma MoveToFrontMultiset(h: seq<Entry>, i: nat)
    requires i < |h|
    ensures multiset([h[i]] + h[..i] + h[i + 1..]) == multiset(h)
  {
    assert h == h[..i] + [h[i]] + h[i + 1..];
    calc {
      multiset([h[i]] + h[..i] + h[i + 1..]);
      multiset([h[i]]) + multiset(h[..i]) + multiset(h[i + 1..]);
      multiset(h[..i] + [h[i]] + h[i + 1..]);
    }
  }

  lemma UniqueMatchesAtMostOnce(h: seq<Entry>, t: CString, i: nat)
    requires UniqueTexts(h)
    requires i < |h| && MatchesText(h[i], t)
    ensures forall k | 0 <= k < |h| && k != i :: !MatchesText(h[k], t)
  {
    forall k | 0 <= k < |h| && k != i ensures !MatchesText(h[k], t) {
      if MatchesText(h[k], t) {
        if k < i { assert SameText(h[k], h[i]); } else { assert SameText(h[i], h[k]); }
      }
    }
  }

  /** Moving the entry at `i` to the front keeps texts unique. */
  lemma MoveToFrontKeepsUnique(h: seq<Entry>, i: nat)
    requires UniqueTexts(h) && i < |h|
    ensures UniqueTexts([h[i]] + h[..i] + h[i + 1..])
  {
    var r := [h[i]] + h[..i] + h[i + 1..];
    forall a, b | 0 <= a < b < |r| ensures !SameText(r[a], r[b]) {
      var ia := if a == 0 then i else if a - 1 < i then a - 1 else a;
      var ib := if b - 1 < i then b - 1 else b;
      assert r[a] == h[ia] && r[b] == h[ib] && ia != ib;
      if ia < ib { assert !SameText(h[ia], h[ib]); } else { assert !SameText(h[ib], h[ia]); }
    }
  }

  /** Putting an entry whose text no entry has in front keeps texts unique. */
  lemma PrependNewKeepsUnique(h: seq<Entry>, t: CString, flags: uint16)
    requires UniqueTexts(h)
    requires forall k | 0 <= k < |h| :: !MatchesText(h[k], t)
    ensures UniqueTexts([NewTextEntry(t, flags)] + h)
  {
    var r := [NewTextEntry(t, flags)] + h;
    CStrOfNulFree(t);
    forall a, b | 0 <= a < b < |r| ensures !SameText(r[a], r[b]) {
      assert r[b] == h[b - 1];
      if a == 0 {
        assert !MatchesText(h[b - 1], t);
      } else {
        assert r[a] == h[a - 1];
      }
    }
  }

  /** Moving the only match of `t` to the front leaves exactly one match. */
  lemma MoveToFrontMatchesOnce(h: seq<Entry>, t: CString, i: nat)
    requires UniqueTexts(h) && i < |h| && MatchesText(h[i], t)
    ensures MatchCount([h[i]] + h[..i] + h[i + 1..], t) == 1
  {
    UniqueMatchesAtMostOnce(h, t, i);
    var rest := h[..i] + h[i + 1..];
    assert forall k | 0 <= k < |rest| :: rest[k] == if k < i then h[k] else h[k + 1];
    NoMatchCountZero(rest, t);
    MatchCountAppend([h[i]], rest, t);
    assert [h[i]] + h[..i] + h[i + 1..] == [h[i]] + rest;
  }

  /** A new entry for a text no entry has is its only match. */
  lemma PrependNewMatchesOnce(h: seq<Entry>, t: CString, flags: uint16)
    requires forall k | 0 <= k < |h| :: !MatchesText(h[k], t)
    ensures MatchCount([NewTextEntry(t, flags)] + h, t) == 1
  {
    CStrOfNulFree(t);
    NoMatchCountZero(h, t);
    MatchCountAppend([NewTextEntry(t, flags)], h, t);
  }

  /** Dedup insertion keeps the "no two TEXT entries share a text" invariant and leaves exactly one match. */
  lemma AddTextKeepsUnique(h: seq<Entry>, t: CString, flags: uint16)
    requires UniqueTexts(h)
    ensures UniqueTexts(AddText(h, t, flags))
    ensures MatchCount(AddText(h, t, flags), t) == 1
  {
    var i := FirstMatch(h, Some(t));
    if i >= 0 {
      MoveToFrontKeepsUnique(h, i);
      MoveToFrontMatchesOnce(h, t, i);
    } else {
      PrependNewKeepsUnique(h, t, flags);
      PrependNewMatchesOnce(h, t, flags);
    }
  }

  // ---------------------------------------------------------------- truncation

  /**
   * Walk from the tail towards (but never onto) the front, removing unpinned
   * entries while `k` more must go: the loop of `truncate_history`.
   */
  function DropFromEnd(t: seq<Entry>, k: nat): (r: seq<Entry>)
    decreases |t|
  {
    if k == 0 || t == [] then t
    else
      var front, last := t[..|t| - 1], t[|t| - 1];
      if Pinned(last) then DropFromEnd(front, k) + [last] else DropFromEnd(front, k - 1)
  }

  /** `truncate_history` with limit `lim`: the head is never examined. */
  function TruncateHistory(h: seq<Entry>, lim: nat): seq<Entry> {
    if |h| <= lim then h else [h[0]] + DropFromEnd(h[1..], |h| - lim)
  }

  function Min(a: nat, b: nat): nat {
    if a <= b then a else b
  }

  lemma SnocSlices(front: seq<Entry>, last: Entry, j: nat)
    requires j <= |front|
    ensures (front + [last])[j..] == front[j..] + [last]
    ensures (front + [last])[..j] == front[..j]
  {
  }

  /** Appending an entry after position `j` appends it to the pinned or to the unpinned part. */
  lemma SnocKeep(front: seq<Entry>, last: Entry, j: nat)
    requires j <= |front|
    ensures PinnedOnly((front + [last])[j..]) == PinnedOnly(front[j..]) + (if Pinned(last) then [last] else [])
    ensures UnpinnedCount((front + [last])[j..]) == UnpinnedCount(front[j..]) + (if Pinned(last) then 0 else 1)
    ensures (front + [last])[..j] == front[..j]
  {
    SnocSlices(front, last, j);
    KeepAppend(front[j..], [last], true);
    KeepAppend(front[j..], [last], false);
  }

  /**
   * Dropping from the end leaves a prefix untouched and strips the rest of its
   * unpinned entries, exactly `Min(k, UnpinnedCount(t))` of them.
   */
  lemma {:induction false} DropFromEndShape(t: seq<Entry>, k: nat) returns (j: nat)
    ensures j <= |t|
    ensures DropFromEnd(t, k) == t[..j] + PinnedOnly(t[j..])
    ensures UnpinnedCount(t[j..]) == Min(k, UnpinnedCount(t))
    decreases |t|
  {
    if k == 0 || t == [] {
      j := |t|;
      assert t[j..] == [];
    } else {
      var front, last := t[..|t| - 1], t[|t| - 1];
      assert t == front + [last];
      j := DropFromEndShape(front, if Pinned(last) then k else k - 1);
      SnocKeep(front, last, j);
      SnocKeep(front, last, 0);
      assert front[0..] == front && t[0..] == t;
    }
  }

  /**
   * The state of the `truncate_history` loop at index `i` with `k` entries still
   * to go: the head, what the rest of the walk over 1..i will keep, and the part
   * already walked.
   */
  ghost function Scan(e: seq<Entry>, i: nat, k: nat): seq<Entry>
    requires i < |e|
  {
    [e[0]] + DropFromEnd(e[1..i + 1], k) + e[i + 1..]
  }

  /** The walk starts at the tail with everything still to go. */
  lemma TruncateStepStart(h: seq<Entry>, lim: nat)
    requires |h| > lim
    ensures TruncateHistory(h, lim) == Scan(h, |h| - 1, |h| - lim)
  {
    assert h[1..|h|] == h[1..] && h[|h|..] == [];
  }

  /** One pass of the loop over a pinned entry at `i`: it is kept. */
  lemma TruncateStepPinned(e: seq<Entry>, i: nat, k: nat)
    requires 0 < i < |e| && k > 0 && Pinned(e[i])
    ensures Scan(e, i, k) == Scan(e, i - 1, k)
  {
    assert e[1..i + 1] == e[1..i] + [e[i]];
    assert e[i..] == [e[i]] + e[i + 1..];
  }

  /** One pass over an unpinned entry at `i` while `k > 0` must still go: it is removed. */
  lemma TruncateStepUnpinned(e: seq<Entry>, i: nat, k: nat)
    requires 0 < i < |e| && k > 0 && !Pinned(e[i])
    ensures Scan(e, i, k) == Scan(e[..i] + e[i + 1..], i - 1, k - 1)
  {
    var e' := e[..i] + e[i + 1..];
    assert e[1..i + 1] == e[1..i] + [e[i]];
    assert e'[1..i] == e[1..i] && e'[i..] == e[i + 1..] && e'[0] == e[0];
  }

  /** The loop ends at the head or once nothing more must go; what is left is the list itself. */
  lemma TruncateStepDone(e: seq<Entry>, i: nat, k: nat)
    requires i < |e| && (i == 0 || k == 0)
    ensures Scan(e, i, k) == e
  {
    assert e == [e[0]] + e[1..i + 1] + e[i + 1..];
  }

  /**
   * `truncate_history` never removes the head: what it keeps is an untouched
   * prefix followed by the pinned entries of the rest, so survivors keep their
   * order and removal proceeds from the oldest end; a list already within the
   * limit is unchanged.
   */
  lemma TruncateShape(h: seq<Entry>, lim: nat) returns (j: nat)
    requires h != []
    ensures 1 <= j <= |h|
    ensures TruncateHistory(h, lim) == h[..j] + PinnedOnly(h[j..])
    ensures TruncateHistory(h, lim)[0] == h[0]
    ensures |h| <= lim ==> TruncateHistory(h, lim) == h
    ensures |h| > lim ==> UnpinnedCount(h[j..]) == Min(|h| - lim, UnpinnedCount(h[1..]))
  {
    if |h| > lim {
      var t := h[1..];
      var i := DropFromEndShape(t, |h| - lim);
      j := i + 1;
      assert h[..j] == [h[0]] + t[..i];
      assert h[j..] == t[i..];
      calc {
        TruncateHistory(h, lim);
        [h[0]] + DropFromEnd(t, |h| - lim);
        [h[0]] + (t[..i] + PinnedOnly(t[i..]));
        h[..j] + PinnedOnly(h[j..]);
      }
    } else {
      j := |h|;
      assert h[j..] == [];
      assert h[..j] == h;
    }
  }

  /** Truncation removes no pinned entry. */
  lemma TruncateKeepsPinned(h: seq<Entry>, lim: nat)
    ensures PinnedOnly(TruncateHistory(h, lim)) == PinnedOnly(h)
  {
    if h != [] {
      var j := TruncateShape(h, lim);
      KeepAppend(h[..j], h[j..], true);
      KeepIdempotent(h[j..], true);
      KeepAppend(h[..j], PinnedOnly(h[j..]), true);
      assert h == h[..j] + h[j..];
    }
  }

  /**
   * Afterwards the list is within the limit, or every entry after the head is
   * pinned; and it never removes more than needed to reach the limit.
   */
  lemma TruncateBound(h: seq<Entry>, lim: nat)
    ensures var r := TruncateHistory(h, lim);
      |r| <= lim || forall k | 1 <= k < |r| :: Pinned(r[k])
    ensures |h| > lim ==> |TruncateHistory(h, lim)| >= lim
  {
    var r := TruncateHistory(h, lim);
    if |h| > lim {
      var j := TruncateShape(h, lim);
      var t := h[1..];
      KeepSplitsLength(h[j..]);
      KeepSplitsLength(t);
      assert t == h[1..j] + h[j..];
      KeepAppend(h[1..j], h[j..], false);
      if |h| - lim > UnpinnedCount(t) {
        NoUnpinnedMeansAllPinned(h[1..j]);
        var p := PinnedOnly(h[j..]);
        KeepMembers(h[j..], true);
        forall m | 1 <= m < |r| ensures Pinned(r[m]) {
          if m < j {
            assert r[m] == h[1..j][m - 1];
          } else {
            assert r[m] == p[m - j];
            assert p[m - j] in p;
          }
        }
      }
    }
  }

  lemma {:induction false} UniqueConcat(a: seq<Entry>, b: seq<Entry>)
    requires UniqueTexts(a) && UniqueTexts(b)
    requires forall x, y | x in a && y in b :: !SameText(x, y)
    ensures UniqueTexts(a + b)
  {
    var ab := a + b;
    forall i, j | 0 <= i < j < |ab| ensures !SameText(ab[i], ab[j]) {
      if i < |a| && j >= |a| {
        assert ab[i] in a && ab[j] in b;
      } else if i >= |a| {
        assert ab[i] == b[i - |a|] && ab[j] == b[j - |a|];
      }
    }
  }

  lemma {:induction false} UniqueKeep(h: seq<Entry>, pinned: bool)
    requires UniqueTexts(h)
    ensures UniqueTexts(Keep(h, pinned))
  {
    if h != [] {
      var rest := h[1..];
      assert UniqueTexts(rest) by {
        forall i, j | 0 <= i < j < |rest| ensures !SameText(rest[i], rest[j]) {
          assert rest[i] == h[i + 1] && rest[j] == h[j + 1];
        }
      }
      UniqueKeep(rest, pinned);
      KeepMembers(rest, pinned);
      var head := if Pinned(h[0]) == pinned then [h[0]] else [];
      forall x, y | x in head && y in Keep(rest, pinned) ensures !SameText(x, y) {
        var k :| 0 <= k < |rest| && rest[k] == y;
        assert h[k + 1] == y;
      }
      UniqueConcat(head, Keep(rest, pinned));
    }
  }

  lemma UniqueSlices(h: seq<Entry>, j: nat)
    requires UniqueTexts(h) && j <= |h|
    ensures UniqueTexts(h[..j]) && UniqueTexts(h[j..])
    ensures forall p, q | 0 <= p < j <= q < |h| :: !SameText(h[p], h[q])
  {
    var a, b := h[..j], h[j..];
    forall p, q | 0 <= p < q < |a| ensures !SameText(a[p], a[q]) {
      assert a[p] == h[p] && a[q] == h[q];
    }
    forall p, q | 0 <= p < q < |b| ensures !SameText(b[p], b[q]) {
      assert b[p] == h[p + j] && b[q] == h[q + j];
    }
  }

  /** An untouched prefix followed by the pinned entries of the rest keeps texts unique. */
  lemma UniquePrefixPinned(h: seq<Entry>, j: nat)
    requires UniqueTexts(h) && j <= |h|
    ensures UniqueTexts(h[..j] + PinnedOnly(h[j..]))
  {
    var a, b := h[..j], h[j..];
    UniqueSlices(h, j);
    UniqueKeep(b, true);
    KeepMembers(b, true);
    forall x, y | x in a && y in PinnedOnly(b) ensures !SameText(x, y) {
      var p :| 0 <= p < |a| && a[p] == x;
      var q :| 0 <= q < |b| && b[q] == y;
      assert h[p] == x && h[q + j] == y;
    }
    UniqueConcat(a, PinnedOnly(b));
  }

  /** Truncation keeps the "no two TEXT entries share a text" invariant. */
  lemma TruncateKeepsUnique(h: seq<Entry>, lim: nat)
    requires UniqueTexts(h)
    ensures UniqueTexts(TruncateHistory(h, lim))
  {
    if h != [] {
      var j := TruncateShape(h, lim);
      UniquePrefixPinned(h, j);
    }
  }

  /**
   * `history_add_text_item(t, flags)` followed by its `truncate_history`: the
   * front entry matches `t` and the dedup invariant is kept.
   */
  function AddTextItem(h: seq<Entry>, t: CString, flags: uint16, lim: nat): seq<Entry> {
    TruncateHistory(AddText(h, t, flags), lim)
  }

  lemma AddTextItemProperties(h: seq<Entry>, t: CString, flags: uint16, lim: nat)
    ensures var r := AddTextItem(h, t, flags, lim);
      r != [] && MatchesText(r[0], t)
    ensures UniqueTexts(h) ==> UniqueTexts(AddTextItem(h, t, flags, lim))
    ensures PinnedOnly(AddTextItem(h, t, flags, lim)) == PinnedOnly(AddText(h, t, flags))
  {
    AddTextFront(h, t, flags);
    var j := TruncateShape(AddText(h, t, flags), lim);
    TruncateKeepsPinned(AddText(h, t, flags), lim);
    if UniqueTexts(h) {
      AddTextKeepsUnique(h, t, flags);
      TruncateKeepsUnique(AddText(h, t, flags), lim);
    }
  }

  // ---------------------------------------------------------------- clearing

  /** `clear_history` keeps exactly the pinned entries, in order; clearing twice changes nothing more. */
  lemma ClearHistoryProperties(h: seq<Entry>)
    ensures forall e | e in PinnedOnly(h) :: Pinned(e) && e in h
    ensures PinnedOnly(PinnedOnly(h)) == PinnedOnly(h)
    ensures |PinnedOnly(h)| == |h| - UnpinnedCount(h)
    ensures UniqueTexts(h) ==> UniqueTexts(PinnedOnly(h))
  {
    KeepMembers(h, true);
    KeepIdempotent(h, true);
    KeepSplitsLength(h);
    if UniqueTexts(h) {
      UniqueKeep(h, true);
    }
  }

  // ---------------------------------------------------------------- text export

  /** "\n\n", 80 dashes, "\n\n": the rule between two exported entries. */
  function Separator(): (s: Bytes)
    ensures |s| == 84
  {
    [10, 10] + seq(80, _ => 0x2D) + [10, 10]
  }

  /** Texts joined by the separator, none before the first. */
  function JoinTexts(xs: seq<Bytes>): Bytes {
    if xs == [] then []
    else if |xs| == 1 then xs[0]
    else JoinTexts(xs[..|xs| - 1]) + Separator() + xs[|xs| - 1]
  }

  /** What `fprintf(fp, "%s", c->text)` writes for each entry. */
  function Texts(h: seq<Entry>): (r: seq<Bytes>)
    ensures |r| == |h|
  {
    if h == [] then [] else [CStr(h[0].text)] + Texts(h[1..])
  }

  lemma {:induction false} TextsAppend(a: seq<Entry>, b: seq<Entry>)
    ensures Texts(a + b) == Texts(a) + Texts(b)
  {
    if a == [] {
      assert a + b == b;
    } else {
      assert (a + b)[0] == a[0];
      assert (a + b)[1..] == a[1..] + b;
      TextsAppend(a[1..], b);
    }
  }

  lemma JoinTextsSnoc(xs: seq<Bytes>, x: Bytes)
    requires xs != []
    ensures JoinTexts(xs + [x]) == JoinTexts(xs) + Separator() + x
  {
    assert (xs + [x])[..|xs|] == xs;
  }

  function TotalLength(xs: seq<Bytes>): nat {
    if xs == [] then 0 else TotalLength(xs[..|xs| - 1]) + |xs[|xs| - 1]|
  }

  /** The file `save_history_as_text` writes: unpinned entries, then pinned ones. */
  function ExportText(h: seq<Entry>): Bytes {
    JoinTexts(Texts(UnpinnedOnly(h)) + Texts(PinnedOnly(h)))
  }

  /** The texts `save_history_as_text` has written once its first `pass` passes are over. */
  function Passes(h: seq<Entry>, pass: nat): seq<Bytes> {
    if pass == 0 then [] else if pass == 1 then Texts(UnpinnedOnly(h)) else Texts(UnpinnedOnly(h)) + Texts(PinnedOnly(h))
  }

  lemma PassesNext(h: seq<Entry>, pass: nat)
    requires pass < 2
    ensures Passes(h, pass) + Texts(Keep(h, pass == 1)) == Passes(h, pass + 1)
  {
    if pass == 0 {
      assert [] + Texts(UnpinnedOnly(h)) == Texts(UnpinnedOnly(h));
    }
  }

  /** The texts written after `prior` once a pass for `pinned` has looked at the first `i` entries. */
  ghost function Exported(prior: seq<Bytes>, h: seq<Entry>, i: nat, pinned: bool): seq<Bytes>
    requires i <= |h|
  {
    prior + Texts(Keep(h[..i], pinned))
  }

  lemma ExportStart(prior: seq<Bytes>, h: seq<Entry>, pinned: bool)
    ensures Exported(prior, h, 0, pinned) == prior
  {
    assert h[..0] == [];
  }

  lemma ExportDone(prior: seq<Bytes>, h: seq<Entry>, pinned: bool)
    ensures Exported(prior, h, |h|, pinned) == prior + Texts(Keep(h, pinned))
  {
    assert h[..|h|] == h;
  }

  /**
   * One step of a pass of `save_history_as_text` over entry `i`: an entry of the
   * pass's kind is written, after a separator unless it is the first one.
   */
  lemma ExportStep(prior: seq<Bytes>, h: seq<Entry>, i: nat, pinned: bool)
    requires i < |h|
    ensures Pinned(h[i]) == pinned ==> Exported(prior, h, i + 1, pinned) == Exported(prior, h, i, pinned) + [CStr(h[i].text)]
    ensures Pinned(h[i]) != pinned ==> Exported(prior, h, i + 1, pinned) == Exported(prior, h, i, pinned)
  {
    assert h[..i + 1] == h[..i] + [h[i]];
    KeepAppend(h[..i], [h[i]], pinned);
    TextsAppend(Keep(h[..i], pinned), Keep([h[i]], pinned));
  }

  /** Every text is written once, with one separator between two consecutive ones. */
  lemma {:induction false} JoinTextsLength(xs: seq<Bytes>)
    requires xs != []
    ensures |JoinTexts(xs)| == TotalLength(xs) + 84 * (|xs| - 1)
    decreases |xs|
  {
    if |xs| > 1 {
      JoinTextsLength(xs[..|xs| - 1]);
    } else {
      assert xs[..0] == [];
    }
  }

  lemma {:induction false} TotalLengthAppend(a: seq<Bytes>, b: seq<Bytes>)
    ensures TotalLength(a + b) == TotalLength(a) + TotalLength(b)
    decreases |b|
  {
    if b != [] {
      assert (a + b)[..|a + b| - 1] == a + b[..|b| - 1];
      TotalLengthAppend(a, b[..|b| - 1]);
    } else {
      assert a + b == a;
    }
  }

  /**
   * The export holds every entry's text exactly once (unpinned ones first) with
   * a separator between consecutive entries: its length is the sum of the text
   * lengths plus 84 per separator.
   */
  lemma ExportTextLength(h: seq<Entry>)
    requires h != []
    ensures |ExportText(h)| == TotalLength(Texts(UnpinnedOnly(h))) + TotalLength(Texts(PinnedOnly(h))) + 84 * (|h| - 1)
  {
    KeepSplitsLength(h);
    var xs := Texts(UnpinnedOnly(h)) + Texts(PinnedOnly(h));
    JoinTextsLength(xs);
    TotalLengthAppend(Texts(UnpinnedOnly(h)), Texts(PinnedOnly(h)));
  }
}
