/**
 * The preference table of `preferences.c`: `myprefs[]` (each entry a name,
 * an integer value, a string value, and whether it has a description, the
 * field the lookup loop stops on), the shared fallback `dummy[0]`, the
 * hotkey list `keylist[]`, and the mirror of some values into plain ints
 * (`pref2int_mapper`).
 *
 * Names and string values are the characters before their NUL; a NULL
 * pointer is `None`. The ints the mirror writes through are the elements of
 * an array, a NULL `val` pointer is a link with no target.
 */
module Preferences {
  import opened Common

  const MAX_HISTORY: int32 := 1000
  const DEF_HISTORY_LIMIT: int32 := 25
  const DEF_ITEM_LENGTH: int32 := 50
  const DEF_ITEM_LENGTH_MAX: int32 := 200
  const DEF_ELLIPSIZE: int32 := 2
  /** The `mode` of `pref_mapper` that installs a new map; any other mode updates. */
  const PM_INIT: int := 0

  /** A `struct pref_item`, reduced to the fields the table logic reads or writes. */
  datatype Pref = Pref(name: Option<string>, described: bool, val: int32, cval: Option<string>)

  /** What `get_pref` points at: an entry of `myprefs[]`, or `dummy[0]`. */
  datatype Slot = Entry(index: nat) | Dummy

  /** A `struct pref2int`: a preference name and the int it is mirrored into. */
  datatype Link = Link(name: Option<string>, target: Option<nat>)

  /** A `struct keys` entry: the preference name of a hotkey and its key combination. */
  datatype Key = Key(name: Option<string>, keyval: string)

  /** The whole table and the fallback entry, as values. */
  datatype Store = Store(prefs: seq<Pref>, dummy: Pref)

  /** A NULL string read as "" (what `set_key_entry` stores for NULL). */
  function OrEmpty(s: Option<string>): string {
    if s.Some? then s.value else ""
  }

  // ---------------------------------------------------------------- get_pref

  /** Index of the first entry without a description: the lookup never looks at it or past it. */
  function Stop(t: seq<Pref>): (n: nat)
    ensures n <= |t|
    ensures forall k | 0 <= k < n :: t[k].described
    ensures n < |t| ==> !t[n].described
  {
    if t == [] || !t[0].described then 0 else 1 + Stop(t[1..])
  }

  /** The loop of `get_pref` from index `i` on. */
  function Find(t: seq<Pref>, name: string, i: nat): (r: Slot)
    ensures r.Entry? ==> i <= r.index < |t|
    decreases |t| - i
  {
    if i >= |t| || !t[i].described then Dummy
    else if t[i].name == Some(name) then Entry(i)
    else Find(t, name, i + 1)
  }

  function Lookup(t: seq<Pref>, name: string): Slot {
    Find(t, name, 0)
  }

  lemma {:induction false} FindSpec(t: seq<Pref>, name: string, i: nat, j: nat)
    requires i <= Stop(t)
    ensures Find(t, name, i) == Entry(j) <==>
      i <= j < Stop(t) && t[j].name == Some(name) && forall k | i <= k < j :: t[k].name != Some(name)
    ensures Find(t, name, i) == Dummy <==> forall k | i <= k < Stop(t) :: t[k].name != Some(name)
    decreases |t| - i
  {
    if i < Stop(t) && t[i].name != Some(name) {
      FindSpec(t, name, i + 1, j);
    }
  }

  /**
   * `get_pref` returns the first named entry before the first undescribed one
   * whose name matches, and `dummy[0]` when there is none; entries at or after
   * the stop (such as "no_icon" in the shipped table) are never returned.
   */
  lemma LookupSpec(t: seq<Pref>, name: string, j: nat)
    ensures Lookup(t, name) == Entry(j) <==>
      j < Stop(t) && t[j].name == Some(name) && forall k | 0 <= k < j :: t[k].name != Some(name)
    ensures Lookup(t, name) == Dummy <==> forall k | 0 <= k < Stop(t) :: t[k].name != Some(name)
  {
    FindSpec(t, name, 0, j);
  }

  /** Two tables with the same names and descriptions answer every lookup alike. */
  predicate SameShape(t: seq<Pref>, u: seq<Pref>) {
    |t| == |u| && forall k | 0 <= k < |t| :: t[k].name == u[k].name && t[k].described == u[k].described
  }

  lemma {:induction false} FindShape(t: seq<Pref>, u: seq<Pref>, name: string, i: nat)
    requires SameShape(t, u)
    ensures Find(t, name, i) == Find(u, name, i)
    decreases |t| - i
  {
    if i < |t| && t[i].described && t[i].name != Some(name) {
      FindShape(t, u, name, i + 1);
    }
  }

  // ---------------------------------------------------------------- values

  function At(st: Store, s: Slot): Pref {
    if s.Entry? && s.index < |st.prefs| then st.prefs[s.index] else st.dummy
  }

  function Put(st: Store, s: Slot, p: Pref): Store {
    if s.Entry? && s.index < |st.prefs| then st.(prefs := st.prefs[s.index := p]) else st.(dummy := p)
  }

  function SlotOf(st: Store, name: string): Slot {
    Lookup(st.prefs, name)
  }

  /** `get_pref_int32`. */
  function GetInt(st: Store, name: string): int32 {
    At(st, SlotOf(st, name)).val
  }

  /** The table after `p->val = val` in `set_pref_int32`. */
  function SetInt(st: Store, name: string, v: int32): Store {
    var s := SlotOf(st, name);
    Put(st, s, At(st, s).(val := v))
  }

  /** `get_pref_string`. */
  function GetString(st: Store, name: string): Option<string> {
    At(st, SlotOf(st, name)).cval
  }

  /** `set_pref_string`: the entry's string becomes a copy of the argument. */
  function SetString(st: Store, name: string, s: string): Store {
    var slot := SlotOf(st, name);
    Put(st, slot, At(st, slot).(cval := Some(s)))
  }

  /** Writing one field of an entry leaves every lookup as it was. */
  lemma PutKeepsSlots(st: Store, s: Slot, p: Pref, name: string)
    requires p.name == At(st, s).name && p.described == At(st, s).described
    ensures SlotOf(Put(st, s, p), name) == SlotOf(st, name)
  {
    assert SameShape(st.prefs, Put(st, s, p).prefs);
    FindShape(st.prefs, Put(st, s, p).prefs, name, 0);
  }

  /**
   * `set_pref_int32(n, v)` then `get_pref_int32(m)` gives `v` whenever `m`
   * reaches the same entry as `n` (in particular `m == n`, and any two names
   * that both miss, since they share `dummy[0]`); any other name reads what it
   * read before, and no string changes.
   */
  lemma IntRoundTrip(st: Store, n: string, v: int32, m: string)
    ensures GetInt(SetInt(st, n, v), n) == v
    ensures SlotOf(st, m) == SlotOf(st, n) ==> GetInt(SetInt(st, n, v), m) == v
    ensures SlotOf(st, m) != SlotOf(st, n) ==> GetInt(SetInt(st, n, v), m) == GetInt(st, m)
    ensures GetString(SetInt(st, n, v), m) == GetString(st, m)
  {
    var s := SlotOf(st, n);
    PutKeepsSlots(st, s, At(st, s).(val := v), n);
    PutKeepsSlots(st, s, At(st, s).(val := v), m);
  }

  /** `set_pref_string` replaces exactly the string of the entry its name reaches. */
  lemma StringRoundTrip(st: Store, n: string, x: string, m: string)
    ensures GetString(SetString(st, n, x), n) == Some(x)
    ensures SlotOf(st, m) == SlotOf(st, n) ==> GetString(SetString(st, n, x), m) == Some(x)
    ensures SlotOf(st, m) != SlotOf(st, n) ==> GetString(SetString(st, n, x), m) == GetString(st, m)
    ensures GetInt(SetString(st, n, x), m) == GetInt(st, m)
  {
    var s := SlotOf(st, n);
    PutKeepsSlots(st, s, At(st, s).(cval := Some(x)), n);
    PutKeepsSlots(st, s, At(st, s).(cval := Some(x)), m);
  }

  // ---------------------------------------------------------------- pref_mapper

  /** Index of the first link with a NULL name or a NULL target: the loop of `pref_mapper` stops there. */
  function MapStop(m: seq<Link>): (n: nat)
    ensures n <= |m|
    ensures forall i | 0 <= i < n :: m[i].name.Some? && m[i].target.Some?
    ensures n < |m| ==> m[n].name.None? || m[n].target.None?
  {
    if m == [] || m[0].name.None? || m[0].target.None? then 0 else 1 + MapStop(m[1..])
  }

  /** A map the update can walk: it is terminated, and every target before the terminator is one of the `n` ints. */
  predicate MapperOk(m: seq<Link>, n: nat) {
    MapStop(m) < |m| && forall i | 0 <= i < MapStop(m) :: m[i].target.value < n
  }

  /** The loop of `pref_mapper` in update mode from link `i` on. */
  function MapFrom(ints: seq<int32>, m: seq<Link>, st: Store, i: nat): (r: seq<int32>)
    ensures |r| == |ints|
    decreases |m| - i
  {
    if i >= |m| || m[i].name.None? || m[i].target.None? then ints
    else
      var k := m[i].target.value;
      MapFrom(if k < |ints| then ints[k := GetInt(st, m[i].name.value)] else ints, m, st, i + 1)
  }

  function MapInts(ints: seq<int32>, m: seq<Link>, st: Store): seq<int32> {
    MapFrom(ints, m, st, 0)
  }

  predicate IsTarget(m: seq<Link>, k: nat) {
    exists i | 0 <= i < MapStop(m) :: m[i].target == Some(k)
  }

  lemma {:induction false} MapFromSpec(ints: seq<int32>, m: seq<Link>, st: Store, i: nat)
    requires MapperOk(m, |ints|) && i <= MapStop(m)
    requires forall a, b | i <= a < b < MapStop(m) :: m[a].target != m[b].target
    ensures var r := MapFrom(ints, m, st, i);
      && (forall j | i <= j < MapStop(m) :: r[m[j].target.value] == GetInt(st, m[j].name.value))
      && (forall k | 0 <= k < |ints| && !(exists j | i <= j < MapStop(m) :: m[j].target == Some(k)) :: r[k] == ints[k])
    decreases |m| - i
  {
    if i < MapStop(m) {
      var k := m[i].target.value;
      var ints' := ints[k := GetInt(st, m[i].name.value)];
      MapFromSpec(ints', m, st, i + 1);
    }
  }

  /**
   * After an update, each int named by a link before the terminator holds its
   * preference's value, provided no two such links share an int; every other
   * int keeps its value.
   */
  lemma MapIntsSpec(ints: seq<int32>, m: seq<Link>, st: Store)
    requires MapperOk(m, |ints|)
    requires forall a, b | 0 <= a < b < MapStop(m) :: m[a].target != m[b].target
    ensures var r := MapInts(ints, m, st);
      && (forall j | 0 <= j < MapStop(m) :: r[m[j].target.value] == GetInt(st, m[j].name.value))
      && (forall k | 0 <= k < |ints| && !IsTarget(m, k) :: r[k] == ints[k])
  {
    MapFromSpec(ints, m, st, 0);
  }

  /** Two sequences of ints that differ at most in the ints the links from `i` on write. */
  predicate AgreeOff(x: seq<int32>, y: seq<int32>, m: seq<Link>, i: nat) {
    |x| == |y| && forall k | 0 <= k < |x| && !(exists j | i <= j < MapStop(m) :: m[j].target == Some(k)) :: x[k] == y[k]
  }

  lemma {:induction false} MapFromAgree(x: seq<int32>, y: seq<int32>, m: seq<Link>, st: Store, i: nat)
    requires MapperOk(m, |x|) && i <= MapStop(m) && AgreeOff(x, y, m, i)
    ensures MapFrom(x, m, st, i) == MapFrom(y, m, st, i)
    decreases |m| - i
  {
    if i < MapStop(m) {
      var k := m[i].target.value;
      var v := GetInt(st, m[i].name.value);
      MapFromAgree(x[k := v], y[k := v], m, st, i + 1);
    } else {
      assert x == y;
    }
  }

  lemma {:induction false} MapFromTouches(x: seq<int32>, m: seq<Link>, st: Store, i: nat)
    requires MapperOk(m, |x|) && i <= MapStop(m)
    ensures AgreeOff(MapFrom(x, m, st, i), x, m, i)
    decreases |m| - i
  {
    if i < MapStop(m) {
      var k := m[i].target.value;
      MapFromTouches(x[k := GetInt(st, m[i].name.value)], m, st, i + 1);
    }
  }

  /** A second update through the same map overwrites everything the first one wrote. */
  lemma MapIntsTwice(x: seq<int32>, m: seq<Link>, a: Store, b: Store)
    requires MapperOk(m, |x|)
    ensures MapInts(MapInts(x, m, a), m, b) == MapInts(x, m, b)
  {
    MapFromTouches(x, m, a, 0);
    MapFromAgree(MapInts(x, m, a), x, m, b, 0);
  }

  // ---------------------------------------------------------------- check_sanity

  predicate OutOfRange(x: int32, hi: int32) {
    x == 0 || x > hi || x < 0
  }

  /** One test of `check_sanity`: a value that is 0, above `hi` or negative is replaced by `def`. */
  function Sanitize(st: Store, name: string, hi: int32, def: int32): Store {
    if OutOfRange(GetInt(st, name), hi) then SetInt(st, name, def) else st
  }

  /** The three tests of `check_sanity`, in order. */
  function Sanity(st: Store): Store {
    var st1 := Sanitize(st, "history_limit", MAX_HISTORY, DEF_HISTORY_LIMIT);
    var st2 := Sanitize(st1, "item_length", DEF_ITEM_LENGTH_MAX, DEF_ITEM_LENGTH);
    Sanitize(st2, "ellipsize", 3, DEF_ELLIPSIZE)
  }

  /** Whether any of the three tests calls `set_pref_int32` (and so runs the mirror). */
  predicate SanityWrites(st: Store) {
    var st1 := Sanitize(st, "history_limit", MAX_HISTORY, DEF_HISTORY_LIMIT);
    var st2 := Sanitize(st1, "item_length", DEF_ITEM_LENGTH_MAX, DEF_ITEM_LENGTH);
    || OutOfRange(GetInt(st, "history_limit"), MAX_HISTORY)
    || OutOfRange(GetInt(st1, "item_length"), DEF_ITEM_LENGTH_MAX)
    || OutOfRange(GetInt(st2, "ellipsize"), 3)
  }

  /**
   * A test leaves the value it checks in 1..`hi` (for a default in that range),
   * keeps an in-range value, touches no other entry's value or any string, and
   * changes no lookup.
   */
  lemma SanitizeSpec(st: Store, name: string, hi: int32, def: int32, m: string)
    requires 1 <= def <= hi
    ensures var st' := Sanitize(st, name, hi, def);
      && 1 <= GetInt(st', name) <= hi
      && (!OutOfRange(GetInt(st, name), hi) ==> st' == st)
      && (OutOfRange(GetInt(st, name), hi) ==> GetInt(st', name) == def)
      && (SlotOf(st, m) != SlotOf(st, name) ==> GetInt(st', m) == GetInt(st, m))
      && GetString(st', m) == GetString(st, m)
      && SlotOf(st', m) == SlotOf(st, m)
  {
    IntRoundTrip(st, name, def, m);
    var s := SlotOf(st, name);
    PutKeepsSlots(st, s, At(st, s).(val := def), m);
  }

  /**
   * When "history_limit", "item_length" and "ellipsize" reach three different
   * entries, `check_sanity` leaves them in 1..1000, 1..200 and 1..3, resets an
   * out-of-range one to 25, 50 or 2, keeps an in-range one, and changes no string.
   */
  lemma SanityRanges(st: Store, m: string)
    requires SlotOf(st, "history_limit") != SlotOf(st, "item_length")
    requires SlotOf(st, "history_limit") != SlotOf(st, "ellipsize")
    requires SlotOf(st, "item_length") != SlotOf(st, "ellipsize")
    ensures var st' := Sanity(st);
      && 1 <= GetInt(st', "history_limit") <= MAX_HISTORY
      && 1 <= GetInt(st', "item_length") <= DEF_ITEM_LENGTH_MAX
      && 1 <= GetInt(st', "ellipsize") <= 3
      && GetInt(st', "history_limit") == (if OutOfRange(GetInt(st, "history_limit"), MAX_HISTORY) then DEF_HISTORY_LIMIT else GetInt(st, "history_limit"))
      && GetInt(st', "item_length") == (if OutOfRange(GetInt(st, "item_length"), DEF_ITEM_LENGTH_MAX) then DEF_ITEM_LENGTH else GetInt(st, "item_length"))
      && GetInt(st', "ellipsize") == (if OutOfRange(GetInt(st, "ellipsize"), 3) then DEF_ELLIPSIZE else GetInt(st, "ellipsize"))
      && GetString(st', m) == GetString(st, m)
  {
    var st1 := Sanitize(st, "history_limit", MAX_HISTORY, DEF_HISTORY_LIMIT);
    var st2 := Sanitize(st1, "item_length", DEF_ITEM_LENGTH_MAX, DEF_ITEM_LENGTH);
    SanitizeSpec(st, "history_limit", MAX_HISTORY, DEF_HISTORY_LIMIT, "history_limit");
    SanitizeSpec(st, "history_limit", MAX_HISTORY, DEF_HISTORY_LIMIT, "item_length");
    SanitizeSpec(st, "history_limit", MAX_HISTORY, DEF_HISTORY_LIMIT, "ellipsize");
    SanitizeSpec(st, "history_limit", MAX_HISTORY, DEF_HISTORY_LIMIT, m);
    SanitizeSpec(st1, "item_length", DEF_ITEM_LENGTH_MAX, DEF_ITEM_LENGTH, "item_length");
    SanitizeSpec(st1, "item_length", DEF_ITEM_LENGTH_MAX, DEF_ITEM_LENGTH, "history_limit");
    SanitizeSpec(st1, "item_length", DEF_ITEM_LENGTH_MAX, DEF_ITEM_LENGTH, "ellipsize");
    SanitizeSpec(st1, "item_length", DEF_ITEM_LENGTH_MAX, DEF_ITEM_LENGTH, m);
    SanitizeSpec(st2, "ellipsize", 3, DEF_ELLIPSIZE, "history_limit");
    SanitizeSpec(st2, "ellipsize", 3, DEF_ELLIPSIZE, "item_length");
    SanitizeSpec(st2, "ellipsize", 3, DEF_ELLIPSIZE, m);
  }

  // ---------------------------------------------------------------- hotkeys

  /** The shape of `keylist[]`: named entries with distinct names, then one with a NULL name. */
  predicate KeyTable(ks: seq<Key>) {
    && |ks| > 0 && ks[|ks| - 1].name.None?
    && (forall k | 0 <= k < |ks| - 1 :: ks[k].name.Some?)
    && (forall a, b | 0 <= a < b < |ks| - 1 :: ks[a].name != ks[b].name)
  }

  /** The loop of `set_key_entry` from index `i` on: the first entry named `name` gets `val`, or "" for NULL. */
  function SetKeyFrom(ks: seq<Key>, name: string, val: Option<string>, i: nat): (r: seq<Key>)
    ensures |r| == |ks| && forall k | 0 <= k < |r| :: r[k].name == ks[k].name
    decreases |ks| - i
  {
    if i >= |ks| || ks[i].name.None? then ks
    else if ks[i].name == Some(name) then ks[i := ks[i].(keyval := OrEmpty(val))]
    else SetKeyFrom(ks, name, val, i + 1)
  }

  function SetKey(ks: seq<Key>, name: string, val: Option<string>): seq<Key> {
    SetKeyFrom(ks, name, val, 0)
  }

  lemma {:induction false} SetKeyFromSpec(ks: seq<Key>, l: nat, val: Option<string>, i: nat)
    requires KeyTable(ks) && i <= l < |ks| - 1
    ensures SetKeyFrom(ks, ks[l].name.value, val, i) == ks[l := ks[l].(keyval := OrEmpty(val))]
    decreases |ks| - i
  {
    if i < l {
      SetKeyFromSpec(ks, l, val, i + 1);
    }
  }

  /** `set_key_entry` on the name of entry `l` sets that entry's key (to "" for NULL) and no other. */
  lemma SetKeySpec(ks: seq<Key>, l: nat, val: Option<string>)
    requires KeyTable(ks) && l < |ks| - 1
    ensures SetKey(ks, ks[l].name.value, val) == ks[l := ks[l].(keyval := OrEmpty(val))]
  {
    SetKeyFromSpec(ks, l, val, 0);
  }

  lemma {:induction false} SetKeyFromMiss(ks: seq<Key>, name: string, val: Option<string>, i: nat)
    requires forall k | 0 <= k < |ks| :: ks[k].name != Some(name)
    ensures SetKeyFrom(ks, name, val, i) == ks
    decreases |ks| - i
  {
    if i < |ks| && ks[i].name.Some? {
      SetKeyFromMiss(ks, name, val, i + 1);
    }
  }

  /** `set_key_entry` on a name no entry has changes nothing. */
  lemma SetKeyMiss(ks: seq<Key>, name: string, val: Option<string>)
    requires forall k | 0 <= k < |ks| :: ks[k].name != Some(name)
    ensures SetKey(ks, name, val) == ks
  {
    SetKeyFromMiss(ks, name, val, 0);
  }

  /** The names of the hotkeys (the entries before the terminator). */
  function KeyNames(ks: seq<Key>): (r: seq<string>)
    requires |ks| > 0
    ensures |r| == |ks| - 1
  {
    seq(|ks| - 1, j requires 0 <= j < |ks| - 1 => OrEmpty(ks[j].name))
  }

  /** The keys the first loop of `set_keys_from_prefs` copies from the preference strings. */
  function Loaded(st: Store, ks: seq<Key>): (v: seq<string>)
    requires |ks| > 0
    ensures |v| == |ks| - 1
  {
    seq(|ks| - 1, j requires 0 <= j < |ks| - 1 => OrEmpty(GetString(st, OrEmpty(ks[j].name))))
  }

  /** The table with the first `|vals|` keys replaced. */
  function WithVals(ks: seq<Key>, vals: seq<string>): (r: seq<Key>)
    ensures |r| == |ks| && forall k | 0 <= k < |r| :: r[k].name == ks[k].name
  {
    seq(|ks|, j requires 0 <= j < |ks| => if j < |vals| then ks[j].(keyval := vals[j]) else ks[j])
  }

  /** `set_key_entry` on the name of key `l` replaces that key of a partly replaced table. */
  lemma WithValsSet(ks: seq<Key>, vals: seq<string>, l: nat, x: Option<string>)
    requires KeyTable(ks) && |vals| <= |ks| - 1 && l <= |vals| && l < |ks| - 1
    ensures KeyTable(WithVals(ks, vals))
    ensures SetKey(WithVals(ks, vals), ks[l].name.value, x) ==
      WithVals(ks, if l < |vals| then vals[l := OrEmpty(x)] else vals + [OrEmpty(x)])
  {
    var w := WithVals(ks, vals);
    SetKeySpec(w, l, x);
    var lhs, rhs := SetKey(w, ks[l].name.value, x), WithVals(ks, if l < |vals| then vals[l := OrEmpty(x)] else vals + [OrEmpty(x)]);
    assert forall k | 0 <= k < |ks| :: lhs[k] == rhs[k];
  }

  /** Key `j` survives the passes of the duplicate check over the first `i` keys: it is empty or no earlier one among them equals it. */
  predicate Kept(v: seq<string>, j: nat, i: nat)
    requires j < |v|
  {
    v[j] == "" || forall k | 0 <= k < i && k < j :: v[k] != v[j]
  }

  /** Key `j` is cleared once pass `i` has reached key `l` (passes before `i` are complete). */
  predicate Gone(v: seq<string>, j: nat, i: nat, l: nat)
    requires j < |v|
  {
    !(if j < l then Kept(v, j, i + 1) else Kept(v, j, i))
  }

  /** The keys at that point of the duplicate check; `Deduped(v, |v|, 0)` is its result. */
  function Deduped(v: seq<string>, i: nat, l: nat): (r: seq<string>)
    ensures |r| == |v|
  {
    seq(|v|, j requires 0 <= j < |v| => if Gone(v, j, i, l) then "" else v[j])
  }

  /**
   * The duplicate check keeps every key that no earlier key equals and clears
   * every later duplicate of a non-empty key; afterwards no two keys share a
   * non-empty value, and keys that were already distinct come out unchanged.
   */
  lemma DedupSpec(v: seq<string>)
    ensures var r := Deduped(v, |v|, 0);
      && (forall j | 0 <= j < |v| :: r[j] == v[j] || r[j] == "")
      && (forall j | 0 <= j < |v| && (forall k | 0 <= k < j :: v[k] != v[j]) :: r[j] == v[j])
      && (forall j, k | 0 <= k < j < |v| && v[j] != "" && v[k] == v[j] :: r[j] == "")
      && (forall j, k | 0 <= k < j < |v| && r[k] != "" :: r[k] != r[j])
    ensures (forall j, k | 0 <= k < j < |v| && v[j] != "" :: v[k] != v[j]) ==> Deduped(v, |v|, 0) == v
  {
    var r := Deduped(v, |v|, 0);
    forall j, k | 0 <= k < j < |v| && r[k] != "" ensures r[k] != r[j] {
      if r[j] != "" {
        assert Kept(v, j, |v|);
      }
    }
  }

  lemma DedupStart(v: seq<string>)
    ensures Deduped(v, 0, 0) == v
  {
  }

  /** A pass whose key is already empty clears nothing. */
  lemma {:induction false} DedupSkip(v: seq<string>, i: nat)
    requires i < |v| && Deduped(v, i, 0)[i] == ""
    ensures forall j | 0 <= j < |v| :: Gone(v, j, i + 1, 0) == Gone(v, j, i, 0)
    ensures Deduped(v, i + 1, 0) == Deduped(v, i, 0)
  {
  }

  /**
   * Step `l` of pass `i` (whose key is non-empty): the key at `l` is cleared
   * exactly when the C test fires, and no other key changes status.
   */
  lemma {:induction false} DedupClear(v: seq<string>, i: nat, l: nat)
    requires i < |v| && l < |v| && Deduped(v, i, 0)[i] != ""
    ensures Deduped(v, i, l)[i] == Deduped(v, i, 0)[i] == v[i]
    ensures var cur := Deduped(v, i, l);
      var fire := l != i && cur[l] != "" && cur[i] == cur[l];
      && Gone(v, l, i, l + 1) == (Gone(v, l, i, l) || fire)
      && (fire ==> !Gone(v, l, i, l))
      && (forall j | 0 <= j < |v| && j != l :: Gone(v, j, i, l + 1) == Gone(v, j, i, l))
      && Deduped(v, i, l + 1) == if fire then cur[l := ""] else cur
  {
    var cur := Deduped(v, i, l);
    assert Kept(v, i, i);
  }

  /** The end of a pass is the start of the next. */
  lemma DedupNext(v: seq<string>, i: nat)
    ensures forall j | 0 <= j < |v| :: Gone(v, j, i, |v|) == Gone(v, j, i + 1, 0)
    ensures Deduped(v, i, |v|) == Deduped(v, i + 1, 0)
  {
  }

  /** Whether some key cleared by that point of the duplicate check reaches slot `s`. */
  predicate Hit(t: seq<Pref>, names: seq<string>, v: seq<string>, i: nat, l: nat, s: Slot)
    requires |names| == |v|
  {
    exists j | 0 <= j < |v| :: Gone(v, j, i, l) && Lookup(t, names[j]) == s
  }

  /** The table at that point of the duplicate check: each entry a cleared key reaches holds "". */
  function Blanked(st: Store, names: seq<string>, v: seq<string>, i: nat, l: nat): Store
    requires |names| == |v|
  {
    Store(
      seq(|st.prefs|, p requires 0 <= p < |st.prefs| =>
        if Hit(st.prefs, names, v, i, l, Entry(p)) then st.prefs[p].(cval := Some("")) else st.prefs[p]),
      if Hit(st.prefs, names, v, i, l, Dummy) then st.dummy.(cval := Some("")) else st.dummy)
  }

  /**
   * What the duplicate check does to the table: a name reads "" when it
   * reaches an entry a cleared key reaches, and its old string otherwise; no
   * value and no lookup changes.
   */
  lemma BlankedSpec(st: Store, names: seq<string>, v: seq<string>, i: nat, l: nat, m: string)
    requires |names| == |v|
    ensures var st' := Blanked(st, names, v, i, l);
      && SlotOf(st', m) == SlotOf(st, m)
      && GetString(st', m) == (if Hit(st.prefs, names, v, i, l, SlotOf(st, m)) then Some("") else GetString(st, m))
      && GetInt(st', m) == GetInt(st, m)
  {
    var st' := Blanked(st, names, v, i, l);
    assert SameShape(st.prefs, st'.prefs);
    FindShape(st.prefs, st'.prefs, m, 0);
  }

  lemma BlankedStart(st: Store, names: seq<string>, v: seq<string>)
    requires |names| == |v|
    ensures Blanked(st, names, v, 0, 0) == st
  {
    assert Blanked(st, names, v, 0, 0).prefs == st.prefs;
  }

  lemma BlankedSame(st: Store, names: seq<string>, v: seq<string>, i: nat, l: nat, i': nat, l': nat)
    requires |names| == |v|
    requires forall j | 0 <= j < |v| :: Gone(v, j, i, l) == Gone(v, j, i', l')
    ensures Blanked(st, names, v, i, l) == Blanked(st, names, v, i', l')
  {
    assert forall s :: Hit(st.prefs, names, v, i, l, s) == Hit(st.prefs, names, v, i', l', s);
  }

  /** Clearing key `l` (the C code's `set_pref_string(name, "")`) takes the table one step further. */
  lemma BlankedClear(st: Store, names: seq<string>, v: seq<string>, i: nat, l: nat)
    requires |names| == |v| && l < |v|
    requires Gone(v, l, i, l + 1) && !Gone(v, l, i, l)
    requires forall j | 0 <= j < |v| && j != l :: Gone(v, j, i, l + 1) == Gone(v, j, i, l)
    ensures SetString(Blanked(st, names, v, i, l), names[l], "") == Blanked(st, names, v, i, l + 1)
  {
    var b := Blanked(st, names, v, i, l);
    var s := Lookup(st.prefs, names[l]);
    BlankedSpec(st, names, v, i, l, names[l]);
    assert forall x :: Hit(st.prefs, names, v, i, l + 1, x) == (Hit(st.prefs, names, v, i, l, x) || x == s);
    var lhs, rhs := SetString(b, names[l], ""), Blanked(st, names, v, i, l + 1);
    assert lhs.prefs == rhs.prefs;
  }

  /**
   * Step `l` of pass `i` of the duplicate check, on the keys and on the table:
   * when the C test fires, clearing key `l` in both takes them to the next step;
   * otherwise they already are at the next step.
   */
  lemma DedupStep(ks: seq<Key>, st: Store, v: seq<string>, i: nat, l: nat)
    requires KeyTable(ks) && |v| == |ks| - 1 && i < |v| && l < |v| && Deduped(v, i, 0)[i] != ""
    ensures var cur := Deduped(v, i, l);
      var fire := l != i && cur[l] != "" && cur[i] == cur[l];
      && cur[i] == Deduped(v, i, 0)[i]
      && (fire ==>
            && SetKey(WithVals(ks, cur), ks[l].name.value, Some("")) == WithVals(ks, Deduped(v, i, l + 1))
            && SetString(Blanked(st, KeyNames(ks), v, i, l), KeyNames(ks)[l], "") == Blanked(st, KeyNames(ks), v, i, l + 1))
      && (!fire ==>
            && Deduped(v, i, l + 1) == cur
            && Blanked(st, KeyNames(ks), v, i, l + 1) == Blanked(st, KeyNames(ks), v, i, l))
  {
    var cur := Deduped(v, i, l);
    DedupClear(v, i, l);
    if l != i && cur[l] != "" && cur[i] == cur[l] {
      WithValsSet(ks, cur, l, Some(""));
      BlankedClear(st, KeyNames(ks), v, i, l);
    } else {
      BlankedSame(st, KeyNames(ks), v, i, l + 1, i, l);
    }
  }

  // ---------------------------------------------------------------- the shipped tables

  /** `myprefs[]` as initialised: frames and spacers have a description and no (or a dummy) name; "no_icon" has none. */
  function DefaultPrefs(): seq<Pref> {
    [ Pref(None, true, 0, None),                                     // Clipboard Management frame
      Pref(Some("enabled"), true, 1, None),
      Pref(Some("track_clipboard_selection"), true, 1, None),
      Pref(Some("track_primary_selection"), true, 0, None),
      Pref(Some("synchronize"), true, 0, None),
      Pref(Some("restore_empty"), true, 1, None),
      Pref(None, true, 0, None),                                     // History frame
      Pref(Some("save_history"), true, 1, None),
      Pref(Some("history_limit"), true, DEF_HISTORY_LIMIT, None),
      Pref(Some("nop"), true, 0, None),
      Pref(None, true, 0, None),                                     // Filtering frame
      Pref(Some("ignore_whiteonly"), true, 0, None),
      Pref(None, true, 0, None),                                     // History menu frame
      Pref(Some("nop"), true, 0, None),
      Pref(Some("type_search"), true, 0, None),
      Pref(Some("display_nonprinting_characters"), true, 0, None),
      Pref(Some("item_length"), true, DEF_ITEM_LENGTH, None),
      Pref(Some("nop"), true, 0, None),
      Pref(Some("ellipsize"), true, DEF_ELLIPSIZE, None),
      Pref(Some("menu_key"), true, 0, None),
      Pref(Some("history_key"), true, 0, None),
      Pref(Some("no_icon"), false, 0, None),
      Pref(None, false, 0, None) ]                                   // terminator
  }

  /** `keylist[]` as initialised. */
  function DefaultKeys(): seq<Key> {
    [Key(Some("menu_key"), "<Mod4><Ctrl>Insert"), Key(Some("history_key"), "<Mod4>Insert"), Key(None, "")]
  }

  /** `Stop` is the index of the first entry without a description. */
  lemma {:induction false} StopAt(t: seq<Pref>, n: nat)
    requires n < |t| && !t[n].described
    requires forall k | 0 <= k < n :: t[k].described
    ensures Stop(t) == n
  {
    if n > 0 {
      assert t[0].described;
      StopAt(t[1..], n - 1);
    }
  }

  lemma DefaultStop()
    ensures Stop(DefaultPrefs()) == 21
  {
    StopAt(DefaultPrefs(), 21);
  }

  /** No entry before the terminator of the shipped table is called `name`. */
  lemma DefaultAbsent(name: string)
    requires forall k | 0 <= k < 21 :: DefaultPrefs()[k].name != Some(name)
    ensures Lookup(DefaultPrefs(), name) == Dummy
  {
    DefaultStop();
    LookupSpec(DefaultPrefs(), name, 0);
  }

  /** A name that first appears at `j`, before the terminator, is found there. */
  lemma DefaultSlot(name: string, j: nat)
    requires j < 21 && DefaultPrefs()[j].name == Some(name)
    requires forall k | 0 <= k < j :: DefaultPrefs()[k].name != Some(name)
    ensures Lookup(DefaultPrefs(), name) == Entry(j)
  {
    DefaultStop();
    LookupSpec(DefaultPrefs(), name, j);
  }

  /** In the shipped table the lookup stops at "no_icon", so that name falls through to `dummy[0]`. */
  lemma DefaultNoIcon()
    ensures Lookup(DefaultPrefs(), "no_icon") == Dummy
  {
    DefaultAbsent("no_icon");
  }

  lemma DefaultHistoryLimit()
    ensures Lookup(DefaultPrefs(), "history_limit") == Entry(8)
  {
    DefaultSlot("history_limit", 8);
  }

  lemma DefaultItemLength()
    ensures Lookup(DefaultPrefs(), "item_length") == Entry(16)
  {
    DefaultSlot("item_length", 16);
  }

  lemma DefaultEllipsize()
    ensures Lookup(DefaultPrefs(), "ellipsize") == Entry(18)
  {
    DefaultSlot("ellipsize", 18);
  }

  lemma DefaultMenuKey()
    ensures Lookup(DefaultPrefs(), "menu_key") == Entry(19)
  {
    DefaultSlot("menu_key", 19);
  }

  lemma DefaultHistoryKey()
    ensures Lookup(DefaultPrefs(), "history_key") == Entry(20)
  {
    DefaultSlot("history_key", 20);
  }

  /**
   * Every table laid out like the shipped one (same names and descriptions,
   * whatever the values) answers these lookups alike, and the shipped hotkey
   * list is well formed.
   */
  lemma DefaultTables(u: seq<Pref>)
    requires SameShape(u, DefaultPrefs())
    ensures !u[|u| - 1].described && KeyTable(DefaultKeys())
    ensures Lookup(u, "no_icon") == Dummy
    ensures Lookup(u, "history_limit") == Entry(8)
    ensures Lookup(u, "item_length") == Entry(16)
    ensures Lookup(u, "ellipsize") == Entry(18)
    ensures Lookup(u, "menu_key") == Entry(19) && Lookup(u, "history_key") == Entry(20)
  {
    var t := DefaultPrefs();
    assert u[22].described == t[22].described;
    DefaultNoIcon();
    DefaultHistoryLimit();
    DefaultItemLength();
    DefaultEllipsize();
    DefaultMenuKey();
    DefaultHistoryKey();
    FindShape(u, t, "no_icon", 0);
    FindShape(u, t, "history_limit", 0);
    FindShape(u, t, "item_length", 0);
    FindShape(u, t, "ellipsize", 0);
    FindShape(u, t, "menu_key", 0);
    FindShape(u, t, "history_key", 0);
  }

  /** With the shipped table's layout, `check_sanity` always leaves the three values in range. */
  lemma DefaultSanity(st: Store, m: string)
    requires SameShape(st.prefs, DefaultPrefs())
    ensures 1 <= GetInt(Sanity(st), "history_limit") <= MAX_HISTORY
    ensures 1 <= GetInt(Sanity(st), "item_length") <= DEF_ITEM_LENGTH_MAX
    ensures 1 <= GetInt(Sanity(st), "ellipsize") <= 3
  {
    DefaultTables(st.prefs);
    SanityRanges(st, m);
  }

  // ---------------------------------------------------------------- the tables

  /** The static tables of `preferences.c` and the ints the installed map points at. */
  class PrefTable {
    /** `myprefs[]`, ending with its all-NULL entry. */
    const prefs: array<Pref>
    /** `dummy[0]`, which every lookup that misses returns. */
    var dummy: Pref
    /** `keylist[]`, ending with its NULL-named entry. */
    const keylist: array<Key>
    /** `pref2int_mapper`: the map `pref_mapper` installed (empty before that). */
    var mapper: seq<Link>
    /** The ints the map's `val` pointers point at. */
    const ints: array<int32>

    ghost predicate Valid()
      reads this, prefs, keylist
    {
      prefs.Length > 0 && !prefs[prefs.Length - 1].described && KeyTable(keylist[..])
    }

    function Contents(): Store
      reads this, prefs
    {
      Store(prefs[..], dummy)
    }

    /** The static initial state, with `init_pref`'s settings of `dummy[0]`. */
    constructor(prefs: array<Pref>, keylist: array<Key>, ints: array<int32>)
      requires prefs.Length > 0 && !prefs[prefs.Length - 1].described && KeyTable(keylist[..])
      ensures Valid() && this.prefs == prefs && this.keylist == keylist && this.ints == ints
      ensures dummy == Pref(None, true, 0, Some("dummy String")) && mapper == []
    {
      this.prefs, this.keylist, this.ints := prefs, keylist, ints;
      dummy := Pref(None, true, 0, Some("dummy String"));
      mapper := [];
    }

    /** `get_pref`. */
    method GetPref(name: string) returns (slot: Slot)
      requires Valid()
      ensures slot == Lookup(prefs[..], name)
    {
      var i := 0;
      while prefs[i].described
        invariant 0 <= i < prefs.Length
        invariant Find(prefs[..], name, i) == Lookup(prefs[..], name)
        decreases prefs.Length - i
      {
        if prefs[i].name.None? {
          i := i + 1;
          continue;
        }
        if prefs[i].name.value == name {
          return Entry(i);
        }
        i := i + 1;
      }
      return Dummy;
    }

    /** `pref_mapper`: installs the map, or copies each mapped value into its int. */
    method PrefMapper(m: seq<Link>, mode: int)
      requires Valid() && (mode != PM_INIT ==> MapperOk(mapper, ints.Length))
      modifies this`mapper, ints
      ensures mode == PM_INIT ==> mapper == m && ints[..] == old(ints[..])
      ensures mode != PM_INIT ==> mapper == old(mapper) && ints[..] == MapInts(old(ints[..]), mapper, Contents())
    {
      if mode == PM_INIT {
        mapper := m;
        return;
      }
      var i := 0;
      while mapper[i].name.Some? && mapper[i].target.Some?
        invariant mapper == old(mapper) && 0 <= i <= MapStop(mapper)
        invariant MapFrom(ints[..], mapper, Contents(), i) == MapInts(old(ints[..]), mapper, Contents())
        decreases |mapper| - i
      {
        var p := GetPref(mapper[i].name.value);
        ints[mapper[i].target.value] := if p.Entry? then prefs[p.index].val else dummy.val;
        i := i + 1;
      }
    }

    /** `set_pref_int32`: the value goes into the entry the name reaches, then the mirror runs. */
    method SetPrefInt32(name: string, val: int32) returns (rc: int)
      requires Valid() && MapperOk(mapper, ints.Length)
      modifies this`dummy, this`mapper, prefs, ints
      ensures Valid() && rc == 0 && mapper == old(mapper)
      ensures Contents() == SetInt(old(Contents()), name, val)
      ensures ints[..] == MapInts(old(ints[..]), mapper, Contents())
    {
      var p := GetPref(name);
      if p.Entry? {
        prefs[p.index] := prefs[p.index].(val := val);
      } else {
        dummy := dummy.(val := val);
      }
      PrefMapper([], 1);
      return 0;
    }

    /** `get_pref_int32`. */
    method GetPrefInt32(name: string) returns (v: int32)
      requires Valid()
      ensures v == GetInt(Contents(), name)
    {
      var p := GetPref(name);
      v := if p.Entry? then prefs[p.index].val else dummy.val;
    }

    /** `set_pref_string`: the entry the name reaches gets a copy of the string. */
    method SetPrefString(name: string, x: string) returns (rc: int)
      requires Valid()
      modifies this`dummy, prefs
      ensures Valid() && rc == 0
      ensures Contents() == SetString(old(Contents()), name, x)
    {
      var p := GetPref(name);
      if p.Entry? {
        prefs[p.index] := prefs[p.index].(cval := Some(x));
      } else {
        dummy := dummy.(cval := Some(x));
      }
      return 0;
    }

    /** `get_pref_string`. */
    method GetPrefString(name: string) returns (x: Option<string>)
      requires Valid()
      ensures x == GetString(Contents(), name)
    {
      var p := GetPref(name);
      x := if p.Entry? then prefs[p.index].cval else dummy.cval;
    }

    /** `set_key_entry`. */
    method SetKeyEntry(name: string, val: Option<string>)
      requires Valid()
      modifies keylist
      ensures Valid() && keylist[..] == SetKey(old(keylist[..]), name, val)
    {
      var i := 0;
      while keylist[i].name.Some?
        invariant 0 <= i < keylist.Length && keylist[..] == old(keylist[..])
        invariant SetKeyFrom(keylist[..], name, val, i) == SetKey(keylist[..], name, val)
        decreases keylist.Length - i
      {
        if keylist[i].name.value == name {
          keylist[i] := keylist[i].(keyval := if val.None? then "" else val.value);
          return;
        }
        i := i + 1;
      }
    }

    /** The first loop of `set_keys_from_prefs`: each hotkey takes its preference string, NULL as "". */
    method LoadKeys()
      requires Valid()
      modifies keylist
      ensures Valid() && keylist[..] == WithVals(old(keylist[..]), Loaded(Contents(), old(keylist[..])))
    {
      ghost var ks := keylist[..];
      ghost var v := Loaded(Contents(), ks);
      var i := 0;
      while keylist[i].name.Some?
        invariant 0 <= i <= |v| && keylist[..] == WithVals(ks, v[..i]) && Valid()
        decreases keylist.Length - i
      {
        var x := GetPrefString(keylist[i].name.value);
        WithValsSet(ks, v[..i], i, x);
        assert v[..i] + [OrEmpty(x)] == v[..i + 1];
        SetKeyEntry(keylist[i].name.value, x);
        i := i + 1;
      }
      assert v[..i] == v;
    }

    /** The body of the inner loop of the duplicate check: key `l` is cleared when it is another non-empty copy of key `i`. */
    method ClearIfDuplicate(i: nat, l: nat, ghost ks: seq<Key>, ghost st: Store, ghost v: seq<string>)
      requires Valid() && KeyTable(ks) && |v| == |ks| - 1 && i < |v| && l < |v|
      requires keylist[..] == WithVals(ks, Deduped(v, i, l)) && Deduped(v, i, 0)[i] != ""
      requires Contents() == Blanked(st, KeyNames(ks), v, i, l)
      modifies this`dummy, prefs, keylist
      ensures Valid() && keylist[..] == WithVals(ks, Deduped(v, i, l + 1))
      ensures Contents() == Blanked(st, KeyNames(ks), v, i, l + 1)
    {
      DedupStep(ks, st, v, i, l);
      assert keylist[l].name == ks[l].name == Some(KeyNames(ks)[l]);
      assert keylist[l].keyval == Deduped(v, i, l)[l] && keylist[i].keyval == Deduped(v, i, l)[i];
      if l != i && keylist[l].keyval != "" {
        if keylist[i].keyval == keylist[l].keyval {
          SetKeyEntry(keylist[l].name.value, Some(""));
          var _ := SetPrefString(keylist[l].name.value, "");
        }
      }
    }

    /**
     * One pass of the duplicate check of `set_keys_from_prefs`, for a non-empty
     * key `i`: every other non-empty key equal to it is cleared, in `keylist[]`
     * and in its preference string.
     */
    method ClearDuplicatesOf(i: nat, ghost ks: seq<Key>, ghost st: Store, ghost v: seq<string>)
      requires Valid() && KeyTable(ks) && |v| == |ks| - 1 && i < |v|
      requires keylist[..] == WithVals(ks, Deduped(v, i, 0)) && Deduped(v, i, 0)[i] != ""
      requires Contents() == Blanked(st, KeyNames(ks), v, i, 0)
      modifies this`dummy, prefs, keylist
      ensures Valid() && keylist[..] == WithVals(ks, Deduped(v, i + 1, 0))
      ensures Contents() == Blanked(st, KeyNames(ks), v, i + 1, 0)
    {
      var l := 0;
      while keylist[l].name.Some?
        invariant 0 <= l <= |v| && keylist[..] == WithVals(ks, Deduped(v, i, l))
        invariant Contents() == Blanked(st, KeyNames(ks), v, i, l) && Valid()
        decreases keylist.Length - l
      {
        ClearIfDuplicate(i, l, ks, st, v);
        l := l + 1;
      }
      assert l == |v|;
      DedupNext(v, i);
      BlankedSame(st, KeyNames(ks), v, i, |v|, i + 1, 0);
    }

    /**
     * `set_keys_from_prefs`: each hotkey takes its preference string; then each
     * later duplicate of a non-empty key is cleared, in `keylist[]` and in its
     * preference string.
     */
    method SetKeysFromPrefs()
      requires Valid()
      modifies this`dummy, prefs, keylist
      ensures Valid()
      ensures var ks := old(keylist[..]); var v := Loaded(old(Contents()), ks);
        && keylist[..] == WithVals(ks, Deduped(v, |v|, 0))
        && Contents() == Blanked(old(Contents()), KeyNames(ks), v, |v|, 0)
    {
      ghost var ks, st := keylist[..], Contents();
      ghost var v := Loaded(st, ks);
      LoadKeys();
      DedupStart(v);
      BlankedStart(st, KeyNames(ks), v);
      var i := 0;
      while keylist[i].name.Some?
        invariant 0 <= i <= |v| && keylist[..] == WithVals(ks, Deduped(v, i, 0))
        invariant Contents() == Blanked(st, KeyNames(ks), v, i, 0) && Valid()
        decreases keylist.Length - i
      {
        if keylist[i].keyval != "" {
          ClearDuplicatesOf(i, ks, st, v);
        } else {
          DedupSkip(v, i);
          BlankedSame(st, KeyNames(ks), v, i, 0, i + 1, 0);
        }
        i := i + 1;
      }
    }

    /** One test of `check_sanity`: reads the value and resets it to `def` when it is out of range. */
    method SanitizeValue(name: string, hi: int32, def: int32) returns (wrote: bool)
      requires Valid() && MapperOk(mapper, ints.Length)
      modifies this`dummy, this`mapper, prefs, ints
      ensures Valid() && mapper == old(mapper)
      ensures Contents() == Sanitize(old(Contents()), name, hi, def)
      ensures wrote == OutOfRange(GetInt(old(Contents()), name), hi)
      ensures ints[..] == if wrote then MapInts(old(ints[..]), mapper, Contents()) else old(ints[..])
    {
      var x := GetPrefInt32(name);
      wrote := x == 0 || x > hi || x < 0;
      if wrote {
        var _ := SetPrefInt32(name, def);
      }
    }

    /**
     * `check_sanity`: "history_limit", "item_length" and "ellipsize" are reset
     * to 25, 50 and 2 unless they lie in 1..1000, 1..200 and 1..3, then the
     * hotkeys are loaded and their duplicates cleared. The mirrored ints hold
     * the values after the last reset, if there was one.
     */
    method CheckSanity()
      requires Valid() && MapperOk(mapper, ints.Length)
      modifies this`dummy, this`mapper, prefs, ints, keylist
      ensures Valid() && mapper == old(mapper)
      ensures var st := Sanity(old(Contents())); var ks := old(keylist[..]); var v := Loaded(st, ks);
        && keylist[..] == WithVals(ks, Deduped(v, |v|, 0))
        && Contents() == Blanked(st, KeyNames(ks), v, |v|, 0)
        && ints[..] == if SanityWrites(old(Contents())) then MapInts(old(ints[..]), mapper, st) else old(ints[..])
    {
      ghost var i0 := ints[..];
      var w1 := SanitizeValue("history_limit", MAX_HISTORY, DEF_HISTORY_LIMIT);
      ghost var st1 := Contents();
      var w2 := SanitizeValue("item_length", DEF_ITEM_LENGTH_MAX, DEF_ITEM_LENGTH);
      ghost var st2 := Contents();
      if w1 && w2 {
        MapIntsTwice(i0, mapper, st1, st2);
      }
      var w3 := SanitizeValue("ellipsize", 3, DEF_ELLIPSIZE);
      if (w1 || w2) && w3 {
        MapIntsTwice(i0, mapper, st2, Contents());
      }
      SetKeysFromPrefs();
    }
  }
}
