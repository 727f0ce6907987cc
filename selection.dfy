/**
 * The clipboard synchronisation of `main.c`: the text last seen in each of the
 * two selections (PRIMARY and CLIPBOARD), the global `last_text`, the deferred
 * check, and the three actions of `update_clipboard` with the cross-buffer
 * synchronisation of `check_clipboards` on top.
 *
 * The windowing system is an oracle: for each buffer the text it offers (if
 * any), whether it offers any target at all, and whether mouse button 1 or
 * shift is held. Writes into a selection are recorded as events. Every
 * preference the C code reads from its globals is a field of `Config`.
 */
module Selection {
  import opened Common
  import opened Utf8
  import opened History
  import opened HistoryFile
  import opened HistoryStoreModule

  /** A `GtkClipboard`: one of the two managed selections, or any other one. */
  datatype Buffer = Primary | Clipboard | Other

  datatype Action = Reset | Set | Check

  /** The preferences `update_clipboard` and `check_clipboards` consult. */
  datatype Config = Config(
    enabled: bool,          // clipboard_management_enabled
    ignoreWhiteonly: bool,  // ignore_whiteonly
    trackPrimary: bool,     // track_primary_selection
    trackClipboard: bool,   // track_clipboard_selection
    restoreEmpty: bool,     // restore_empty
    synchronize: bool,      // synchronize
    historyLimit: int32,    // history_limit, handed on to the history store
    saveHistory: bool)      // save_history, handed on to the history store

  /** What the windowing system answers about one buffer during a check. */
  datatype Os = Os(
    text: Option<CString>,  // gtk_clipboard_wait_for_text when text is available
    hasTargets: bool,       // gtk_clipboard_wait_for_targets
    held: bool)             // button 1 or shift in gdk_window_get_pointer's state

  /** The static globals: `text_primary`, `text_clipboard`, `last_text`, and whether the deferred timer is armed. */
  datatype Sel = Sel(primary: Option<CString>, clipboard: Option<CString>, last: Option<CString>, deferred: bool)

  /** A `gtk_clipboard_set_text` call. */
  datatype Write = Write(buf: Buffer, text: CString)

  /** The new globals, the selection writes made, and the texts handed to `history_add_text_item`, in order. */
  datatype Outcome = Outcome(sel: Sel, writes: seq<Write>, pushed: seq<CString>)

  /** `*p_saved_text`: the primary text for PRIMARY, the clipboard text for any other buffer. */
  function Saved(s: Sel, buf: Buffer): Option<CString> {
    if buf == Primary then s.primary else s.clipboard
  }

  /** The buffers `update_clipboard` acts on; every other call returns NULL at once. */
  predicate Tracked(cfg: Config, buf: Buffer) {
    (buf == Primary && cfg.trackPrimary) || (buf == Clipboard && cfg.trackClipboard)
  }

  /** What `update_clipboard` returns. */
  function Returned(cfg: Config, buf: Buffer, s: Sel): Option<CString> {
    if Tracked(cfg, buf) then Saved(s, buf) else None
  }

  /** One outcome after another. */
  function Then(a: Outcome, b: Outcome): Outcome {
    Outcome(b.sel, a.writes + b.writes, a.pushed + b.pushed)
  }

  function Unchanged(s: Sel): Outcome {
    Outcome(s, [], [])
  }

  /** Whether `should_text_be_saved` accepts a present text: with `ignore_whiteonly`, only one holding a byte that is not white space. */
  predicate Worth(t: CString, ignoreWhiteonly: bool) {
    !ignoreWhiteonly || exists i | 0 <= i < |t| :: !IsSpace(t[i])
  }

  /**
   * The text a check keeps of what the buffer offers: `validate_utf8_text`
   * truncates it to its longest valid prefix, and a result of 0 rejects it.
   */
  function CheckedText(t: CString): Option<CString> {
    var n := ValidateUtf8Text(Some(t), |t|);
    if n == 0 then None else var c: CString := t[..n]; Some(c)
  }

  /**
   * `save_and_set_clipboard_text`: optionally writes the text (or "") into the
   * buffer, makes it the buffer's saved text, and points `last_text` at it.
   */
  function StoreText(s: Sel, buf: Buffer, text: Option<CString>, reallySet: bool): Outcome {
    var s' := if buf == Primary then s.(primary := text) else s.(clipboard := text);
    Outcome(s'.(last := text), if reallySet then [Write(buf, if text.Some? then text.value else [])] else [], [])
  }

  /** The `switch` of `update_clipboard` on a tracked buffer. */
  function Act(s: Sel, cfg: Config, buf: Buffer, action: Action, toSet: Option<CString>, os: Os): Outcome {
    match action
    case Reset => StoreText(s, buf, None, true)
    case Set => if toSet != Saved(s, buf) then StoreText(s, buf, toSet, true) else Unchanged(s)
    case Check =>
      if !cfg.enabled then Unchanged(s.(deferred := false))
      else if buf == Primary && os.held then Unchanged(s.(deferred := true))
      else
        var s1 := if buf == Primary then s.(deferred := false) else s;
        if os.text.None? then
          if cfg.restoreEmpty && !os.hasTargets && Saved(s1, buf).Some? then StoreText(s1, buf, Saved(s1, buf), true)
          else Unchanged(s1)
        else
          var t := CheckedText(os.text.value);
          if t.None? || Saved(s1, buf) == t || !Worth(t.value, cfg.ignoreWhiteonly) then Unchanged(s1)
          else StoreText(s1, buf, t, false)
  }

  /** `update_clipboard`: the action on a tracked buffer, then `last_text` (when set) goes into the history. */
  function Update(s: Sel, cfg: Config, buf: Buffer, action: Action, toSet: Option<CString>, os: Os): Outcome {
    if !Tracked(cfg, buf) then Unchanged(s)
    else
      var o := Act(s, cfg, buf, action, toSet, os);
      Outcome(o.sel, o.writes, if o.sel.last.Some? then [o.sel.last.value] else [])
  }

  /** `update_clipboards`: the same action on PRIMARY, then on CLIPBOARD. */
  function UpdateBoth(s: Sel, cfg: Config, action: Action, toSet: Option<CString>, osP: Os, osC: Os): Outcome {
    var a := Update(s, cfg, Primary, action, toSet, osP);
    Then(a, Update(a.sel, cfg, Clipboard, action, toSet, osC))
  }

  /** The condition under which `check_clipboards` copies `last_text` into both buffers. */
  predicate Synchronizing(cfg: Config, ptext: Option<CString>, ctext: Option<CString>, last: Option<CString>) {
    && cfg.enabled && cfg.synchronize && cfg.trackPrimary && cfg.trackClipboard
    && (ptext.Some? || ctext.Some?)
    && last.Some? && ptext != ctext
  }

  /** `check_clipboards`: CHECK on PRIMARY, CHECK on CLIPBOARD, then possibly SET of `last_text` on both. */
  function CheckBoth(s: Sel, cfg: Config, osP: Os, osC: Os): Outcome {
    var a := Update(s, cfg, Primary, Check, None, osP);
    var b := Update(a.sel, cfg, Clipboard, Check, None, osC);
    var early := Then(a, b);
    if Synchronizing(cfg, Returned(cfg, Primary, a.sel), Returned(cfg, Clipboard, b.sel), b.sel.last) then
      Then(early, UpdateBoth(b.sel, cfg, Set, b.sel.last, osP, osC))
    else early
  }

  /** The history after `history_add_text_item(t, 0)` for each pushed text in turn. */
  function AddAll(h: seq<Entry>, pushed: seq<CString>, lim: nat): seq<Entry>
    decreases |pushed|
  {
    if pushed == [] then h else AddAll(History.AddTextItem(h, pushed[0], 0, lim), pushed[1..], lim)
  }

  /** The history store went from (`e0`, `f0`) to (`e1`, `f1`) by adding the pushed texts. */
  predicate Recorded(e0: seq<Entry>, f0: Option<Bytes>, pushed: seq<CString>, cfg: Config, writable: bool, e1: seq<Entry>, f1: Option<Bytes>) {
    && e1 == AddAll(e0, pushed, Unsigned32(cfg.historyLimit))
    && f1 == if pushed != [] && cfg.saveHistory && writable then Some(Encode(e1)) else f0
  }

  /** `UpdateBoth` in terms of the two outcomes it is made of. */
  lemma UpdateBothOf(s: Sel, cfg: Config, action: Action, toSet: Option<CString>, osP: Os, osC: Os, a: Outcome, b: Outcome)
    requires a == Update(s, cfg, Primary, action, toSet, osP)
    requires b == Update(a.sel, cfg, Clipboard, action, toSet, osC)
    ensures UpdateBoth(s, cfg, action, toSet, osP, osC) == Then(a, b)
  {
  }

  /** `CheckBoth` in terms of the two checks and of what follows them (`Unchanged` when not synchronising). */
  lemma CheckBothOf(s: Sel, cfg: Config, osP: Os, osC: Os, a: Outcome, b: Outcome, c: Outcome)
    requires a == Update(s, cfg, Primary, Check, None, osP)
    requires b == Update(a.sel, cfg, Clipboard, Check, None, osC)
    requires var sync := Synchronizing(cfg, Returned(cfg, Primary, a.sel), Returned(cfg, Clipboard, b.sel), b.sel.last);
      c == if sync then UpdateBoth(b.sel, cfg, Set, b.sel.last, osP, osC) else Unchanged(b.sel)
    ensures CheckBoth(s, cfg, osP, osC) == Then(Then(a, b), c)
  {
  }

  /** Concatenation of the recorded writes regroups freely. */
  lemma AppendAssoc(x: seq<Write>, y: seq<Write>, z: seq<Write>)
    ensures x + y + z == x + (y + z)
  {
  }

  lemma AppendNil(x: seq<Write>)
    ensures x + [] == x
  {
  }

  // ---------------------------------------------------------------- history bookkeeping

  lemma {:induction false} AddAllAppend(h: seq<Entry>, a: seq<CString>, b: seq<CString>, lim: nat)
    ensures AddAll(h, a + b, lim) == AddAll(AddAll(h, a, lim), b, lim)
    decreases |a|
  {
    if a == [] {
      assert a + b == b;
    } else {
      assert (a + b)[0] == a[0] && (a + b)[1..] == a[1..] + b;
      AddAllAppend(History.AddTextItem(h, a[0], 0, lim), a[1..], b, lim);
    }
  }

  lemma RecordedChain(e0: seq<Entry>, f0: Option<Bytes>, a: seq<CString>, e1: seq<Entry>, f1: Option<Bytes>,
                      b: seq<CString>, e2: seq<Entry>, f2: Option<Bytes>, cfg: Config, writable: bool)
    requires Recorded(e0, f0, a, cfg, writable, e1, f1)
    requires Recorded(e1, f1, b, cfg, writable, e2, f2)
    ensures Recorded(e0, f0, a + b, cfg, writable, e2, f2)
  {
    AddAllAppend(e0, a, b, Unsigned32(cfg.historyLimit));
    if b == [] {
      assert a + b == a;
    }
  }

  lemma RecordedOne(e0: seq<Entry>, t: CString, lim: nat)
    ensures AddAll(e0, [t], lim) == History.AddTextItem(e0, t, 0, lim)
  {
    assert [t][1..] == [];
  }

  // ---------------------------------------------------------------- properties

  /** With `ignore_whiteonly` off every present text is kept; with it on, exactly those holding a non-space byte. */
  lemma WorthExactly(t: CString, ignoreWhiteonly: bool)
    ensures !ignoreWhiteonly ==> Worth(t, ignoreWhiteonly)
    ensures ignoreWhiteonly && (forall i | 0 <= i < |t| :: IsSpace(t[i])) ==> !Worth(t, ignoreWhiteonly)
    ensures ignoreWhiteonly ==> (Worth(t, ignoreWhiteonly) <==> exists i | 0 <= i < |t| :: !IsSpace(t[i]))
  {
  }

  /**
   * A check keeps the longest valid UTF-8 prefix of the offered text, and
   * rejects the text exactly when that prefix is empty; valid text is kept whole.
   */
  lemma CheckedTextSpec(t: CString)
    ensures CheckedText(t).Some? ==>
      var c := CheckedText(t).value;
      && 0 < |c| <= |t| && c == t[..|c|] && Valid(c)
      && forall k | |c| < k <= |t| :: !Valid(t[..k])
    ensures CheckedText(t).None? <==> forall k | 0 < k <= |t| :: !Valid(t[..k])
    ensures t != [] && Valid(t) ==> CheckedText(t) == Some(t)
  {
    var n := ValidateUtf8Text(Some(t), |t|);
    ValidateUtf8TextSpec(Some(t), |t|);
    CStrOfNulFree(t);
    assert t[..|t|] == t;
    if t != [] && Valid(t) {
      assert n == |t|;
    }
    if n > 0 && n == |t| {
      assert Valid(t[..CStrLen(t)]);
    }
  }

  /** On an untracked or unknown buffer nothing changes: no saved text, no write, no history entry, and NULL comes back. */
  lemma UntouchedBuffers(s: Sel, cfg: Config, buf: Buffer, action: Action, toSet: Option<CString>, os: Os)
    requires !Tracked(cfg, buf)
    ensures Update(s, cfg, buf, action, toSet, os) == Outcome(s, [], [])
    ensures Returned(cfg, buf, Update(s, cfg, buf, action, toSet, os).sel) == None
  {
  }

  /** Whether a CHECK gets as far as reading the buffer. */
  predicate Reads(cfg: Config, buf: Buffer, os: Os) {
    cfg.enabled && !(buf == Primary && os.held)
  }

  /**
   * The deferred timer: CHECK with management off disarms it, CHECK on PRIMARY
   * while button 1 or shift is held arms it, any other CHECK on PRIMARY disarms
   * it, and a CHECK on CLIPBOARD that reads leaves it alone. When the check does
   * not read, only the timer changes.
   */
  lemma CheckDeferral(s: Sel, cfg: Config, buf: Buffer, os: Os)
    requires Tracked(cfg, buf)
    ensures var o := Act(s, cfg, buf, Check, None, os);
      && (!cfg.enabled ==> o == Unchanged(s.(deferred := false)))
      && (cfg.enabled && buf == Primary && os.held ==> o == Unchanged(s.(deferred := true)))
      && (Reads(cfg, buf, os) && buf == Primary ==> !o.sel.deferred)
      && (Reads(cfg, buf, os) && buf == Clipboard ==> o.sel.deferred == s.deferred)
  {
  }

  /** CHECK offering the text already saved (after validation) writes nothing and keeps the saved text. */
  lemma CheckSameText(s: Sel, cfg: Config, buf: Buffer, os: Os)
    requires Tracked(cfg, buf) && Reads(cfg, buf, os)
    requires os.text.Some? && CheckedText(os.text.value) == Saved(s, buf)
    ensures var o := Act(s, cfg, buf, Check, None, os);
      o.writes == [] && Saved(o.sel, buf) == Saved(s, buf) && o.sel.last == s.last
  {
  }

  /**
   * CHECK offering a new acceptable text: its validated form becomes the saved
   * text and `last_text`, and the buffer is not written; an offered text that
   * is rejected (no valid prefix, or only white space under `ignore_whiteonly`)
   * changes nothing but the timer.
   */
  lemma CheckNewText(s: Sel, cfg: Config, buf: Buffer, os: Os)
    requires Tracked(cfg, buf) && Reads(cfg, buf, os) && os.text.Some?
    ensures var o := Act(s, cfg, buf, Check, None, os);
      var t := CheckedText(os.text.value);
      && o.writes == []
      && (t.Some? && t != Saved(s, buf) && Worth(t.value, cfg.ignoreWhiteonly) ==>
            Saved(o.sel, buf) == t && o.sel.last == t)
      && (t.None? || !Worth(t.value, cfg.ignoreWhiteonly) ==>
            Saved(o.sel, buf) == Saved(s, buf) && o.sel.last == s.last)
  {
  }

  /**
   * CHECK when no text is offered writes the saved text back into the buffer
   * exactly when `restore_empty` is set, the buffer has no target and a text is
   * saved; the saved text stays as it was either way.
   */
  lemma CheckRestore(s: Sel, cfg: Config, buf: Buffer, os: Os)
    requires Tracked(cfg, buf) && Reads(cfg, buf, os) && os.text.None?
    ensures var o := Act(s, cfg, buf, Check, None, os);
      && (o.writes != [] <==> cfg.restoreEmpty && !os.hasTargets && Saved(s, buf).Some?)
      && (o.writes != [] ==> o.writes == [Write(buf, Saved(s, buf).value)] && o.sel.last == Saved(s, buf))
      && Saved(o.sel, buf) == Saved(s, buf)
  {
  }

  /**
   * SET writes the buffer and the saved text exactly when the text differs from
   * the saved one; RESET clears the saved text and `last_text` and writes "".
   */
  lemma SetAndReset(s: Sel, cfg: Config, buf: Buffer, toSet: Option<CString>, os: Os)
    requires Tracked(cfg, buf)
    ensures var o := Act(s, cfg, buf, Set, toSet, os);
      && (o.writes != [] <==> toSet != Saved(s, buf))
      && (toSet != Saved(s, buf) ==>
            o.writes == [Write(buf, if toSet.Some? then toSet.value else [])] && Saved(o.sel, buf) == toSet && o.sel.last == toSet)
      && (toSet == Saved(s, buf) ==> o.sel == s)
    ensures var o := Act(s, cfg, buf, Reset, toSet, os);
      o.writes == [Write(buf, [])] && Saved(o.sel, buf) == None && o.sel.last == None
  {
  }

  /** No action on one buffer changes the saved text of the other. */
  lemma OtherBufferKept(s: Sel, cfg: Config, buf: Buffer, action: Action, toSet: Option<CString>, os: Os)
    requires buf != Other
    ensures var o := Update(s, cfg, buf, action, toSet, os);
      buf == Primary ==> o.sel.clipboard == s.clipboard
    ensures var o := Update(s, cfg, buf, action, toSet, os);
      buf == Clipboard ==> o.sel.primary == s.primary
  {
  }

  /** `last_text` always points at one of the two saved texts. */
  predicate LastIsSaved(s: Sel) {
    s.last == s.primary || s.last == s.clipboard
  }

  lemma UpdateKeepsLastIsSaved(s: Sel, cfg: Config, buf: Buffer, action: Action, toSet: Option<CString>, os: Os)
    requires LastIsSaved(s)
    ensures LastIsSaved(Update(s, cfg, buf, action, toSet, os).sel)
  {
  }

  lemma CheckBothKeepsLastIsSaved(s: Sel, cfg: Config, osP: Os, osC: Os)
    requires LastIsSaved(s)
    ensures LastIsSaved(CheckBoth(s, cfg, osP, osC).sel)
  {
    var a := Update(s, cfg, Primary, Check, None, osP);
    UpdateKeepsLastIsSaved(s, cfg, Primary, Check, None, osP);
    var b := Update(a.sel, cfg, Clipboard, Check, None, osC);
    UpdateKeepsLastIsSaved(a.sel, cfg, Clipboard, Check, None, osC);
    var c := Update(b.sel, cfg, Primary, Set, b.sel.last, osP);
    UpdateKeepsLastIsSaved(b.sel, cfg, Primary, Set, b.sel.last, osP);
    UpdateKeepsLastIsSaved(c.sel, cfg, Clipboard, Set, b.sel.last, osC);
  }

  /**
   * A tracked call that leaves `last_text` set hands exactly that text to the
   * history, which then has an entry for it at its head; a call that leaves it
   * NULL adds nothing.
   */
  lemma HistoryHeadIsLast(s: Sel, cfg: Config, buf: Buffer, action: Action, toSet: Option<CString>, os: Os, h: seq<Entry>, lim: nat)
    requires Tracked(cfg, buf)
    ensures var o := Update(s, cfg, buf, action, toSet, os);
      && (o.sel.last.None? ==> o.pushed == [] && AddAll(h, o.pushed, lim) == h)
      && (o.sel.last.Some? ==>
            o.pushed == [o.sel.last.value]
            && var h' := AddAll(h, o.pushed, lim);
               h' != [] && MatchesText(h'[0], o.sel.last.value))
  {
    var o := Update(s, cfg, buf, action, toSet, os);
    if o.sel.last.Some? {
      RecordedOne(h, o.sel.last.value, lim);
      AddTextItemProperties(h, o.sel.last.value, 0, lim);
    }
  }

  /**
   * `check_clipboards` synchronises exactly under `Synchronizing`; when it does,
   * both saved texts end up equal to `last_text` as it was after the two checks,
   * and when it does not, the outcome is that of the two checks alone.
   */
  lemma SynchronizedBuffers(s: Sel, cfg: Config, osP: Os, osC: Os)
    ensures var a := Update(s, cfg, Primary, Check, None, osP);
      var b := Update(a.sel, cfg, Clipboard, Check, None, osC);
      var o := CheckBoth(s, cfg, osP, osC);
      if Synchronizing(cfg, Returned(cfg, Primary, a.sel), Returned(cfg, Clipboard, b.sel), b.sel.last) then
        o.sel.primary == b.sel.last && o.sel.clipboard == b.sel.last && o.sel.last == b.sel.last
      else
        o == Then(a, b)
  {
    var a := Update(s, cfg, Primary, Check, None, osP);
    var b := Update(a.sel, cfg, Clipboard, Check, None, osC);
    if Synchronizing(cfg, Returned(cfg, Primary, a.sel), Returned(cfg, Clipboard, b.sel), b.sel.last) {
      var l := b.sel.last;
      var c := Update(b.sel, cfg, Primary, Set, l, osP);
      SetAndReset(b.sel, cfg, Primary, l, osP);
      SetAndReset(c.sel, cfg, Clipboard, l, osC);
      OtherBufferKept(c.sel, cfg, Clipboard, Set, l, osC);
    }
  }

  // ---------------------------------------------------------------- the globals

  /** The static globals of `main.c`, the selection writes made so far, and the history store they feed. */
  class ClipboardManager {
    var primary: Option<CString>
    var clipboard: Option<CString>
    var last: Option<CString>
    /** `deferred_clipboard_update_source_id != 0`. */
    var deferred: bool
    var writes: seq<Write>
    const history: HistoryStore

    constructor(history: HistoryStore)
      ensures State() == Sel(None, None, None, false) && writes == [] && this.history == history
    {
      primary, clipboard, last, deferred := None, None, None, false;
      writes := [];
      this.history := history;
    }

    function State(): Sel
      reads this
    {
      Sel(primary, clipboard, last, deferred)
    }

    /** `schedule_deferred_clipboard_update`: arms the timer unless it already is. */
    method ScheduleDeferredUpdate()
      modifies this
      ensures State() == old(State()).(deferred := true) && writes == old(writes)
    {
      if !deferred {
        deferred := true;
      }
    }

    /** `disable_deferred_clipboard_update`: disarms the timer when it is armed. */
    method DisableDeferredUpdate()
      modifies this
      ensures State() == old(State()).(deferred := false) && writes == old(writes)
    {
      if deferred {
        deferred := false;
      }
    }

    method SaveAndSetClipboardText(buf: Buffer, text: Option<CString>, reallySet: bool)
      modifies this
      ensures var o := StoreText(old(State()), buf, text, reallySet);
        State() == o.sel && writes == old(writes) + o.writes
    {
      if reallySet {
        writes := writes + [Write(buf, if text.Some? then text.value else [])];
      }
      if buf == Primary {
        primary := text;
      } else {
        clipboard := text;
      }
      last := text;
    }

    /** The CHECK case of `update_clipboard`, on a tracked buffer. */
    method CheckBuffer(buf: Buffer, os: Os, cfg: Config)
      modifies this
      ensures var o := Act(old(State()), cfg, buf, Check, None, os);
        State() == o.sel && writes == old(writes) + o.writes
    {
      AppendNil(writes);
      if !cfg.enabled {
        DisableDeferredUpdate();
      } else if buf == Primary && os.held {
        ScheduleDeferredUpdate();
      } else {
        if buf == Primary {
          DisableDeferredUpdate();
        }
        var newText := os.text;
        if newText.None? {
          var saved := Saved(State(), buf);
          if cfg.restoreEmpty && !os.hasTargets && saved.Some? {
            SaveAndSetClipboardText(buf, saved, true);
          }
        } else {
          var n := ValidateUtf8Text(newText, |newText.value|);
          if n != 0 {
            var t: CString := newText.value[..n];
            if Saved(State(), buf) != Some(t) {
              var keep := ShouldTextBeSaved(Some(t), cfg.ignoreWhiteonly);
              if keep {
                SaveAndSetClipboardText(buf, Some(t), false);
              }
            }
          }
        }
      }
    }

    /** The `switch` of `update_clipboard` on a tracked buffer. */
    method Perform(buf: Buffer, action: Action, toSet: Option<CString>, os: Os, cfg: Config)
      modifies this
      ensures var o := Act(old(State()), cfg, buf, action, toSet, os);
        State() == o.sel && writes == old(writes) + o.writes
    {
      AppendNil(writes);
      match action {
        case Reset =>
          SaveAndSetClipboardText(buf, None, true);
        case Set =>
          if toSet != Saved(State(), buf) {
            SaveAndSetClipboardText(buf, toSet, true);
          }
        case Check =>
          CheckBuffer(buf, os, cfg);
      }
    }

    method UpdateClipboard(buf: Buffer, action: Action, toSet: Option<CString>, os: Os, cfg: Config, writable: bool)
      returns (r: Option<CString>, ghost o: Outcome)
      modifies this, history
      ensures o == Update(old(State()), cfg, buf, action, toSet, os)
      ensures State() == o.sel && writes == old(writes) + o.writes
      ensures r == Returned(cfg, buf, o.sel)
      ensures Recorded(old(history.entries), old(history.file), o.pushed, cfg, writable, history.entries, history.file)
    {
      o := Update(State(), cfg, buf, action, toSet, os);
      if (buf != Primary && buf != Clipboard) || (buf == Primary && !cfg.trackPrimary) || (buf == Clipboard && !cfg.trackClipboard) {
        return None, o;
      }
      Perform(buf, action, toSet, os, cfg);
      if last.Some? {
        RecordedOne(history.entries, last.value, Unsigned32(cfg.historyLimit));
        history.AddTextItem(last, 0, cfg.historyLimit, cfg.saveHistory, writable);
      }
      r := Saved(State(), buf);
    }

    method UpdateClipboards(action: Action, toSet: Option<CString>, osP: Os, osC: Os, cfg: Config, writable: bool)
      returns (ghost o: Outcome)
      modifies this, history
      ensures o == UpdateBoth(old(State()), cfg, action, toSet, osP, osC)
      ensures State() == o.sel && writes == old(writes) + o.writes
      ensures Recorded(old(history.entries), old(history.file), o.pushed, cfg, writable, history.entries, history.file)
    {
      ghost var s0, e0, f0, w0 := State(), history.entries, history.file, writes;
      var _, a := UpdateClipboard(Primary, action, toSet, osP, cfg, writable);
      ghost var e1, f1 := history.entries, history.file;
      var _, b := UpdateClipboard(Clipboard, action, toSet, osC, cfg, writable);
      UpdateBothOf(s0, cfg, action, toSet, osP, osC, a, b);
      RecordedChain(e0, f0, a.pushed, e1, f1, b.pushed, history.entries, history.file, cfg, writable);
      AppendAssoc(w0, a.writes, b.writes);
      o := Then(a, b);
    }

    method CheckClipboards(osP: Os, osC: Os, cfg: Config, writable: bool)
      returns (ghost o: Outcome)
      modifies this, history
      ensures o == CheckBoth(old(State()), cfg, osP, osC)
      ensures State() == o.sel && writes == old(writes) + o.writes
      ensures Recorded(old(history.entries), old(history.file), o.pushed, cfg, writable, history.entries, history.file)
    {
      ghost var s0, e0, f0, w0 := State(), history.entries, history.file, writes;
      var ptext, a := UpdateClipboard(Primary, Check, None, osP, cfg, writable);
      ghost var e1, f1 := history.entries, history.file;
      var ctext, b := UpdateClipboard(Clipboard, Check, None, osC, cfg, writable);
      RecordedChain(e0, f0, a.pushed, e1, f1, b.pushed, history.entries, history.file, cfg, writable);
      AppendAssoc(w0, a.writes, b.writes);
      o := Then(a, b);
      ghost var c := Unchanged(b.sel);
      if cfg.enabled && cfg.synchronize && cfg.trackPrimary && cfg.trackClipboard {
        if ptext.Some? || ctext.Some? {
          var l := last;
          if l.Some? && ptext != ctext {
            ghost var e2, f2 := history.entries, history.file;
            c := UpdateClipboards(Set, l, osP, osC, cfg, writable);
            RecordedChain(e0, f0, o.pushed, e2, f2, c.pushed, history.entries, history.file, cfg, writable);
            AppendAssoc(w0, o.writes, c.writes);
            o := Then(o, c);
          }
        }
      }
      CheckBothOf(s0, cfg, osP, osC, a, b, c);
    }
  }

  /**
   * `should_text_be_saved`: NULL is never saved; with `ignore_whiteonly` the
   * text is scanned for a byte that is not white space.
   */
  method ShouldTextBeSaved(text: Option<CString>, ignoreWhiteonly: bool) returns (b: bool)
    ensures b <==> text.Some? && Worth(text.value, ignoreWhiteonly)
  {
    if text.None? {
      return false;
    }
    if ignoreWhiteonly {
      var s := text.value;
      var i := 0;
      while i < |s|
        invariant 0 <= i <= |s|
        invariant forall k | 0 <= k < i :: IsSpace(s[k])
      {
        if !IsSpace(s[i]) {
          return true;
        }
        i := i + 1;
      }
      return false;
    }
    return true;
  }
}
