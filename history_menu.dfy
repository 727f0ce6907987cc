/**
 * The history menu built by `do_show_history_menu` and its type-ahead search:
 * how each history entry becomes a menu item, the order the items are laid out
 * in, which item is marked as the current selection's, and how the string typed
 * into the open menu hides the items whose text does not contain it.
 */
module HistoryMenu {
  import opened Common
  import opened History
  import Utf8
  import Labels

  // ---------------------------------------------------------------- building the menu

  /** The preferences the builder reads: "item_length", "ellipsize", "display_nonprinting_characters". */
  datatype Config = Config(itemLength: nat, ellipsize: int32, nonprinting: bool)

  /** `item_length * 4` is computed in a gint32 and must not wrap (check_sanity keeps item_length in 1..200). */
  predicate ValidConfig(c: Config) {
    4 * c.itemLength < 0x8000_0000
  }

  /**
   * What the builder takes from outside: the preferences, the texts the CLIPBOARD
   * and PRIMARY selections hold (None when a selection holds no text) and the
   * case folding `g_utf8_casefold`.
   */
  datatype Env = Env(cfg: Config, clipboard: Option<CString>, primary: Option<CString>, fold: CString -> CString)

  /** How an item's label is drawn: plain, bold (the CLIPBOARD's text) or italic (PRIMARY's). */
  datatype Style = Plain | Bold | Italic

  /** The CLIPBOARD comparison is made first, so a text held by both is bold. */
  function StyleOf(t: CString, env: Env): Style {
    if env.clipboard == Some(t) then Bold
    else if env.primary == Some(t) then Italic
    else Plain
  }

  /**
   * One child of the menu: a history item (its label, tooltip, style, the
   * position of its entry in the history, and the case-folded text attached to
   * it for the search), the separator, or the insensitive "Empty" item.
   */
  datatype MenuItem =
    | Item(text: Bytes, tooltip: Option<Bytes>, style: Style, index: nat, folded: CString)
    | Separator
    | Placeholder

  /** The label of a history text: nonprinting octets made visible when asked, ellipsized, newlines taken out. */
  function Label(t: CString, cfg: Config): Labels.Shaped
    requires ValidConfig(cfg)
  {
    var s := if cfg.nonprinting then Labels.Visible(t) else t;
    var e := Labels.Ellipsize(s, cfg.itemLength, cfg.ellipsize);
    Labels.Shaped(Labels.NoNewlines(e.text), e.tooltip)
  }

  /** The item made for entry `e` at position `i` of the history. */
  function ItemOf(e: Entry, i: nat, env: Env): MenuItem
    requires ValidConfig(env.cfg)
  {
    var t := CStr(e.text);
    var sh := Label(t, env.cfg);
    Item(sh.text, sh.tooltip, StyleOf(t, env), i, env.fold(t))
  }

  /** The items of the entries of `h` whose pinned state is `pinned`. */
  function Items(h: seq<Entry>, pinned: bool, env: Env): seq<MenuItem>
    requires ValidConfig(env.cfg)
  {
    if h == [] then []
    else
      var n := |h| - 1;
      Items(h[..n], pinned, env) + (if Pinned(h[n]) == pinned then [ItemOf(h[n], n, env)] else [])
  }

  /** The menu: the unpinned items, a separator, the pinned items; for an empty history "Empty" and the separator. */
  function Menu(h: seq<Entry>, env: Env): seq<MenuItem>
    requires ValidConfig(env.cfg)
  {
    if h == [] then [Placeholder, Separator]
    else Items(h, false, env) + [Separator] + Items(h, true, env)
  }

  /** `h.wi.index` after the build: set at every bold or italic item, starting from -1. */
  function Marked(h: seq<Entry>, env: Env): int {
    if h == [] then -1
    else if StyleOf(CStr(h[|h| - 1].text), env) != Plain then |h| - 1
    else Marked(h[..|h| - 1], env)
  }

  lemma ItemsSnoc(h: seq<Entry>, k: nat, pinned: bool, env: Env)
    requires ValidConfig(env.cfg) && k < |h|
    ensures Pinned(h[k]) == pinned ==> Items(h[..k + 1], pinned, env) == Items(h[..k], pinned, env) + [ItemOf(h[k], k, env)]
    ensures Pinned(h[k]) != pinned ==> Items(h[..k + 1], pinned, env) == Items(h[..k], pinned, env)
  {
    assert h[..k + 1][..k] == h[..k];
  }

  /**
   * The item loop of `do_show_history_menu`. Each entry's text (up to its NUL) is
   * converted, ellipsized and stripped of newlines, styled, and prepended to the
   * pinned or the unpinned list; both lists are reversed and written around a
   * separator. The second result is the index of the last styled entry, or -1.
   */
  method BuildMenu(h: seq<Entry>, env: Env) returns (menu: seq<MenuItem>, marked: int)
    requires ValidConfig(env.cfg)
    ensures menu == Menu(h, env)
    ensures marked == Marked(h, env)
  {
    if h == [] {
      return [Placeholder, Separator], -1;
    }
    marked := -1;
    var lhist: seq<MenuItem> := [];
    var persistent: seq<MenuItem> := [];
    ghost var us: seq<MenuItem> := [];
    ghost var ps: seq<MenuItem> := [];
    var k: nat := 0;
    while k < |h|
      invariant k <= |h|
      invariant us == Items(h[..k], false, env) && ps == Items(h[..k], true, env)
      invariant lhist == Reverse(us) && persistent == Reverse(ps)
      invariant marked == Marked(h[..k], env)
    {
      var item := MakeItem(h[k], k, env);
      MarkedSnoc(h, k, env);
      if StyleOf(CStr(h[k].text), env) != Plain {
        marked := k;
      }
      ItemsSnoc(h, k, Pinned(h[k]), env);
      ItemsSnoc(h, k, !Pinned(h[k]), env);
      if Pinned(h[k]) {
        ReverseSnoc(ps, item);
        persistent := [item] + persistent;
        ps := ps + [item];
      } else {
        ReverseSnoc(us, item);
        lhist := [item] + lhist;
        us := us + [item];
      }
      k := k + 1;
    }
    assert h[..k] == h;
    ReverseReverse(us);
    ReverseReverse(ps);
    menu := Reverse(lhist) + [Separator] + Reverse(persistent);
  }

  /**
   * The body of the item loop for one entry: its text up to the NUL is converted,
   * ellipsized and stripped of newlines, and styled by the two selections.
   */
  method MakeItem(e: Entry, k: nat, env: Env) returns (item: MenuItem)
    requires ValidConfig(env.cfg)
    ensures item == ItemOf(e, k, env)
  {
    var t := CStr(e.text);
    var s := t;
    if env.cfg.nonprinting {
      s := Labels.ConvertNonprinting(t);
    }
    var shaped := Labels.Ellipsize(s, env.cfg.itemLength, env.cfg.ellipsize);
    var shown := Labels.StripNewlines(shaped.text);
    item := Item(shown, shaped.tooltip, StyleOf(t, env), k, env.fold(t));
  }

  lemma MarkedSnoc(h: seq<Entry>, k: nat, env: Env)
    requires k < |h|
    ensures Marked(h[..k + 1], env) ==
      if StyleOf(CStr(h[k].text), env) != Plain then k else Marked(h[..k], env)
  {
    assert h[..k + 1][..k] == h[..k];
  }

  /** `it` is the item of the entry of `h` in state `pinned` it names. */
  predicate ItemFrom(h: seq<Entry>, it: MenuItem, pinned: bool, env: Env)
    requires ValidConfig(env.cfg)
  {
    it.Item? && it.index < |h| && Pinned(h[it.index]) == pinned && it == ItemOf(h[it.index], it.index, env)
  }

  /** One item per entry in the pinned state asked for. */
  lemma {:induction false} ItemsCount(h: seq<Entry>, pinned: bool, env: Env)
    requires ValidConfig(env.cfg)
    ensures |Items(h, pinned, env)| == |Keep(h, pinned)|
    decreases |h|
  {
    if h != [] {
      var n := |h| - 1;
      ItemsCount(h[..n], pinned, env);
      assert h == h[..n] + [h[n]];
      KeepAppend(h[..n], [h[n]], pinned);
      assert Keep([h[n]], pinned) == if Pinned(h[n]) == pinned then [h[n]] else [];
    }
  }

  /**
   * The items of one pinned state come from entries in that state, in history
   * order, each item made from the entry it names.
   */
  lemma {:induction false} ItemsSpec(h: seq<Entry>, pinned: bool, env: Env)
    requires ValidConfig(env.cfg)
    ensures forall j | 0 <= j < |Items(h, pinned, env)| :: ItemFrom(h, Items(h, pinned, env)[j], pinned, env)
    decreases |h|
  {
    if h != [] {
      var n := |h| - 1;
      var front := h[..n];
      ItemsSpec(front, pinned, env);
      var a := Items(front, pinned, env);
      var r := Items(h, pinned, env);
      assert r == a + (if Pinned(h[n]) == pinned then [ItemOf(h[n], n, env)] else []);
      forall j | 0 <= j < |r| ensures ItemFrom(h, r[j], pinned, env) {
        if j < |a| {
          assert ItemFrom(front, a[j], pinned, env);
          assert front[a[j].index] == h[a[j].index];
        }
      }
    }
  }

  /** History items whose entry positions strictly increase. */
  predicate Ordered(r: seq<MenuItem>) {
    forall j, j' | 0 <= j < j' < |r| :: r[j].Item? && r[j'].Item? && r[j].index < r[j'].index
  }

  /** The items keep the history order: their entry positions strictly increase. */
  lemma {:induction false} ItemsOrdered(h: seq<Entry>, pinned: bool, env: Env)
    requires ValidConfig(env.cfg)
    ensures Ordered(Items(h, pinned, env))
    decreases |h|
  {
    if h != [] {
      var n := |h| - 1;
      var front := h[..n];
      ItemsOrdered(front, pinned, env);
      ItemsSpec(front, pinned, env);
      var a := Items(front, pinned, env);
      var r := Items(h, pinned, env);
      var last := ItemOf(h[n], n, env);
      assert last.Item? && last.index == n;
      assert r == a + (if Pinned(h[n]) == pinned then [last] else []);
      assert Ordered(a);
      forall j, j' | 0 <= j < j' < |r| ensures r[j].Item? && r[j'].Item? && r[j].index < r[j'].index {
        assert r[j] == a[j] && ItemFrom(front, a[j], pinned, env);
        if j' < |a| {
          assert r[j'] == a[j'];
          assert a[j].index < a[j'].index;
        } else {
          assert r[j'] == last;
        }
      }
    }
  }

  /** Every entry in the pinned state asked for has its item. */
  lemma {:induction false} ItemsComplete(h: seq<Entry>, pinned: bool, env: Env, i: nat)
    requires ValidConfig(env.cfg) && i < |h| && Pinned(h[i]) == pinned
    ensures exists j | 0 <= j < |Items(h, pinned, env)| :: Items(h, pinned, env)[j] == ItemOf(h[i], i, env)
    decreases |h|
  {
    var n := |h| - 1;
    var a := Items(h[..n], pinned, env);
    var r := Items(h, pinned, env);
    if i == n {
      assert r[|a|] == ItemOf(h[i], i, env);
    } else {
      ItemsComplete(h[..n], pinned, env, i);
      var j :| 0 <= j < |a| && a[j] == ItemOf(h[..n][i], i, env);
      assert r[j] == a[j];
    }
  }

  /**
   * A non-empty history gives one item per entry and one separator, which sits
   * after the unpinned items and before the pinned ones.
   */
  lemma MenuLayout(h: seq<Entry>, env: Env)
    requires ValidConfig(env.cfg) && h != []
    ensures var m := Menu(h, env);
      |m| == |h| + 1 &&
      forall j | 0 <= j < |m| :: m[j].Separator? <==> j == |UnpinnedOnly(h)|
  {
    ItemsCount(h, false, env);
    ItemsCount(h, true, env);
    ItemsSpec(h, false, env);
    ItemsSpec(h, true, env);
    KeepSplitsLength(h);
    var a, b := Items(h, false, env), Items(h, true, env);
    var m := Menu(h, env);
    forall j | 0 <= j < |m| ensures m[j].Separator? <==> j == |a| {
      if j < |a| {
        assert m[j] == a[j] && ItemFrom(h, a[j], false, env);
      } else if j > |a| {
        assert m[j] == b[j - |a| - 1] && ItemFrom(h, b[j - |a| - 1], true, env);
      }
    }
  }

  /** The marked index is the last entry whose text either selection holds, or -1 when there is none. */
  lemma {:induction false} MarkedSpec(h: seq<Entry>, env: Env)
    ensures var m := Marked(h, env);
      -1 <= m < |h| &&
      (m == -1 <==> forall i | 0 <= i < |h| :: StyleOf(CStr(h[i].text), env) == Plain) &&
      (m >= 0 ==> (StyleOf(CStr(h[m].text), env) != Plain &&
        forall i | m < i < |h| :: StyleOf(CStr(h[i].text), env) == Plain))
    decreases |h|
  {
    if h != [] {
      var n := |h| - 1;
      MarkedSpec(h[..n], env);
      if StyleOf(CStr(h[n].text), env) == Plain {
        forall i | 0 <= i < n ensures h[..n][i] == h[i] { }
      }
    }
  }

  /** A label never holds a newline, and with "display_nonprinting_characters" no tab or space either. */
  lemma LabelClean(t: CString, cfg: Config)
    requires ValidConfig(cfg)
    ensures forall i | 0 <= i < |Label(t, cfg).text| :: Label(t, cfg).text[i] != 0x0A
    ensures cfg.nonprinting ==> Labels.Printable(Label(t, cfg).text)
  {
    var s := if cfg.nonprinting then Labels.Visible(t) else t;
    var e := Labels.Ellipsize(s, cfg.itemLength, cfg.ellipsize);
    Labels.NoNewlinesSpec(e.text);
    if cfg.nonprinting {
      Labels.VisibleHasNoSpecial(t);
      Labels.EllipsizePrintable(s, cfg.itemLength, cfg.ellipsize);
      Labels.NoNewlinesPrintable(e.text);
    }
  }

  // ---------------------------------------------------------------- the search

  /** `g_strstr_len(hay, -1, needle) != NULL`: `needle` occurs in `hay`. */
  predicate Contains(hay: Bytes, needle: Bytes) {
    exists i | 0 <= i <= |hay| :: OccursAt(hay, needle, i)
  }

  predicate OccursAt(hay: Bytes, needle: Bytes, i: nat) {
    i + |needle| <= |hay| && hay[i..i + |needle|] == needle
  }

  /** The test of `apply_search_string_cb`: an empty search string, or one the item's folded text contains. */
  predicate Matches(hay: CString, needle: CString) {
    needle == [] || Contains(hay, needle)
  }

  /** A text that contains the folded needle `a + b` contains its prefix `a`. */
  lemma MatchesNarrow(hay: CString, a: CString, b: CString)
    requires NulFree(a + b) && Matches(hay, a + b)
    ensures Matches(hay, a)
  {
    if a != [] {
      var i :| 0 <= i <= |hay| && OccursAt(hay, a + b, i);
      assert hay[i..i + |a|] == (a + b)[..|a|];
      assert OccursAt(hay, a, i);
    }
  }

  /** A text matches itself, and the empty search string matches every text. */
  lemma MatchesTrivial(hay: CString)
    ensures Matches(hay, hay) && Matches(hay, [])
  {
    assert hay[0..|hay|] == hay;
    assert OccursAt(hay, hay, 0);
  }

  predicate Shown(items: seq<MenuItem>, needle: CString, i: nat)
    requires i < |items|
  {
    items[i].Item? && Matches(items[i].folded, needle)
  }

  /** The first history item at or after `from` that the search keeps. */
  function FirstShown(items: seq<MenuItem>, needle: CString, from: nat): Option<nat>
    decreases |items| - from
  {
    if from >= |items| then None
    else if Shown(items, needle, from) then Some(from)
    else FirstShown(items, needle, from + 1)
  }

  /** FirstShown finds the least index the search keeps, and None exactly when it keeps none. */
  lemma {:induction false} FirstShownSpec(items: seq<MenuItem>, needle: CString, from: nat)
    ensures var r := FirstShown(items, needle, from);
      (r.Some? ==> (from <= r.value < |items| && Shown(items, needle, r.value) &&
        forall i | from <= i < r.value :: !Shown(items, needle, i))) &&
      (r.None? ==> forall i | from <= i < |items| :: !Shown(items, needle, i))
    decreases |items| - from
  {
    if from < |items| && !Shown(items, needle, from) {
      FirstShownSpec(items, needle, from + 1);
    }
  }

  /**
   * The child `gtk_menu_shell_select_first(menu, TRUE)` selects in a menu just
   * shown: the first history item at or after `from`. The separator and the
   * insensitive "Empty" item cannot be selected.
   */
  function FirstItem(items: seq<MenuItem>, from: nat): (r: Option<nat>)
    ensures r.Some? ==> from <= r.value < |items| && items[r.value].Item?
    ensures r.Some? ==> forall i | from <= i < r.value :: !items[i].Item?
    ensures r.None? ==> forall i | from <= i < |items| :: !items[i].Item?
    decreases |items| - from
  {
    if from >= |items| then None
    else if items[from].Item? then Some(from)
    else FirstItem(items, from + 1)
  }

  /** `g_utf8_find_prev_char(s, s + p)`: the last position before `p` whose octet is not a UTF8-tail. */
  function FindPrev(s: Bytes, p: nat): (r: Option<nat>)
    requires p <= |s|
    ensures r.Some? ==> (r.value < p && !Utf8.Tail(s[r.value]) &&
      forall j | r.value < j < p :: Utf8.Tail(s[j]))
    ensures r.None? ==> forall j | 0 <= j < p :: Utf8.Tail(s[j])
  {
    if p == 0 then None
    else if !Utf8.Tail(s[p - 1]) then Some(p - 1)
    else FindPrev(s, p - 1)
  }

  /** Where one BackSpace cuts the search string: before its last character, or at 0 for one octet or none. */
  function BackspaceCut(s: Bytes): (n: nat)
    ensures n <= |s| && (s != [] ==> n < |s|)
    ensures |s| <= 1 ==> n == 0
    ensures |s| > 1 ==> (n == |s| - 1 || !Utf8.Tail(s[n])) && forall j | n < j < |s| :: Utf8.Tail(s[j])
  {
    if |s| > 1 then
      match FindPrev(s, |s|)
      case Some(p) => p
      case None => |s| - 1
    else 0
  }

  lemma CharShape(c: Bytes)
    requires Utf8.IsUtf8Char(c)
    ensures !Utf8.Tail(c[0]) && forall j | 1 <= j < |c| :: Utf8.Tail(c[j])
  {
  }

  lemma ValidCons(c: Bytes, r: Bytes)
    requires Utf8.IsUtf8Char(c) && Utf8.Valid(r)
    ensures Utf8.Valid(c + r)
  {
    var t := c + r;
    assert t[..|c|] == c && t[|c|..] == r;
    assert Utf8.SplitsAt(t, |c|);
  }

  /** The position of the last character is what FindPrev finds: a lead octet followed only by tails. */
  lemma LastLead(s: Bytes, p: nat)
    requires p < |s| && Utf8.IsUtf8Char(s[p..])
    ensures FindPrev(s, |s|) == Some(p)
  {
    CharShape(s[p..]);
    assert s[p] == s[p..][0];
    forall j | p < j < |s| ensures Utf8.Tail(s[j]) {
      assert s[j] == s[p..][j - p];
    }
  }

  lemma {:induction false} LastChar(s: Bytes) returns (p: nat)
    requires Utf8.Valid(s) && s != []
    ensures p < |s| && Utf8.Valid(s[..p]) && Utf8.IsUtf8Char(s[p..])
    decreases |s|
  {
    var m := Utf8.FirstSplit(s);
    var c, rest := s[..m], s[m..];
    if rest == [] {
      p := 0;
      assert c == s;
    } else {
      var q := LastChar(rest);
      p := m + q;
      Labels.TakeSplit(s, m, q);
      Labels.DropDrop(s, m, q);
      ValidCons(c, rest[..q]);
    }
  }

  /** On valid UTF-8 text one BackSpace removes exactly the last character and leaves valid text. */
  lemma BackspaceDropsOneChar(s: Bytes)
    requires Utf8.Valid(s) && s != []
    ensures Utf8.Valid(s[..BackspaceCut(s)]) && Utf8.IsUtf8Char(s[BackspaceCut(s)..])
  {
    var p := LastChar(s);
    LastLead(s, p);
  }

  /** The key events the menu's "event" handler tells apart. */
  datatype EventKind = KeyPress | KeyRelease | OtherEvent

  /**
   * The open menu and its search state: the fields of `struct history_info`
   * the search uses, with the children of the menu and their visibility.
   */
  class MenuView {
    const items: seq<MenuItem>
    const fold: CString -> CString
    var visible: seq<bool>
    var search: CString
    var needle: CString
    var firstMatched: Option<nat>
    var selected: Option<nat>

    ghost predicate Valid()
      reads this
    {
      |visible| == |items|
    }

    /** The state `apply_search_string` leaves: `before` and `sel` are the visibility and selection it started from. */
    ghost predicate Filtered(before: seq<bool>, sel: Option<nat>)
      reads this
    {
      && |visible| == |items| == |before|
      && needle == fold(search)
      && (forall i | 0 <= i < |items| ::
            visible[i] == if items[i].Item? then Matches(items[i].folded, needle) else before[i])
      && firstMatched == FirstShown(items, needle, 0)
      && selected == (if firstMatched.Some? then firstMatched else sel)
    }

    /** A freshly shown menu: every child visible, an empty search string, the first history item selected. */
    constructor (items: seq<MenuItem>, fold: CString -> CString)
      ensures Valid() && this.items == items && this.fold == fold
      ensures visible == seq(|items|, _ => true) && search == [] && needle == fold([])
      ensures firstMatched == None && selected == FirstItem(items, 0)
    {
      this.items := items;
      this.fold := fold;
      visible := seq(|items|, _ => true);
      search := [];
      needle := fold([]);
      firstMatched := None;
      selected := FirstItem(items, 0);
    }

    /**
     * `apply_search_string`: fold the search string, then show every history
     * item that matches it and hide the others, and select the first one shown.
     * The separator and "Empty", which carry no folded text, are left alone.
     */
    method ApplySearch()
      requires Valid()
      modifies this
      ensures Valid() && search == old(search)
      ensures Filtered(old(visible), old(selected))
    {
      needle := fold(search);
      firstMatched := None;
      var v := visible;
      var i: nat := 0;
      while i < |items|
        invariant i <= |items| && |v| == |items| && |visible| == |items|
        invariant forall j | 0 <= j < i ::
          v[j] == if items[j].Item? then Matches(items[j].folded, needle) else old(visible)[j]
        invariant forall j | i <= j < |items| :: v[j] == old(visible)[j]
        invariant FirstShown(items, needle, 0) == if firstMatched.Some? then firstMatched else FirstShown(items, needle, i)
        invariant selected == if firstMatched.Some? then firstMatched else old(selected)
        invariant search == old(search) && needle == fold(search)
      {
        if items[i].Item? {
          var hit := Matches(items[i].folded, needle);
          v := v[i := hit];
          if hit && firstMatched.None? {
            firstMatched := Some(i);
            selected := Some(i);
          }
        }
        i := i + 1;
      }
      visible := v;
    }

    /**
     * `on_history_menu_im_context_commit`: committed text is appended to the
     * search string; without text (one BackSpace) the string is cut before its
     * last character. The search is then applied.
     */
    method Commit(str: Option<CString>)
      requires Valid()
      modifies this
      ensures Valid()
      ensures search == if str.Some? then old(search) + str.value else old(search)[..BackspaceCut(old(search))]
      ensures Filtered(old(visible), old(selected))
    {
      if str.Some? {
        assert NulFree(search + str.value) by {
          forall i | 0 <= i < |search + str.value| ensures (search + str.value)[i] != 0 {
            if i >= |search| {
              assert (search + str.value)[i] == str.value[i - |search|];
            }
          }
        }
        search := search + str.value;
      } else {
        search := search[..BackspaceCut(search)];
      }
      ApplySearch();
    }

    /**
     * `key_release_cb` while type-ahead search is on: an event the input method
     * takes is done with; Ctrl+BackSpace clears the search string and BackSpace
     * removes one character, and both re-apply the search. Every other event is
     * passed on.
     */
    method Key(kind: EventKind, backspace: bool, ctrl: bool, typeSearch: bool, filtered: bool) returns (handled: bool)
      requires Valid()
      modifies this
      ensures Valid()
      ensures handled <==> kind != OtherEvent && typeSearch && (filtered || (kind == KeyPress && backspace))
      ensures handled && !filtered ==>
        search == (if ctrl then [] else old(search)[..BackspaceCut(old(search))]) &&
        Filtered(old(visible), old(selected))
      ensures !handled || filtered ==> unchanged(this)
    {
      handled := false;
      if kind != OtherEvent && typeSearch {
        if filtered {
          return true;
        }
        if kind == KeyPress && backspace && ctrl {
          search := [];
          ApplySearch();
          return true;
        } else if kind == KeyPress && backspace {
          Commit(None);
          return true;
        }
      }
    }
  }
}
