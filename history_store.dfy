/**
 * The history store of `history.c`: the global history list and the history
 * file, with the operations that change them in place.
 *
 * The file is `None` when it does not exist (or cannot be opened for reading).
 * Preference values the C code fetches itself (`history_limit`,
 * `save_history`) and whether the file can be opened for writing are passed in.
 */
module HistoryStoreModule {
  import opened Common
  import opened History
  import opened HistoryFile
  import opened Utf8

  class HistoryStore {
    /** `history_list`, most recent first. */
    var entries: seq<Entry>
    /** The content of the history file. */
    var file: Option<Bytes>

    constructor(file: Option<Bytes>)
      ensures entries == [] && this.file == file
    {
      entries := [];
      this.file := file;
    }

    /** `find_duplicate_text_item`: index of the first TEXT entry whose text equals `text`, or -1. */
    method FindDuplicateTextItem(text: Option<CString>) returns (index: int)
      ensures -1 <= index < |entries|
      ensures text.None? ==> index == -1
      ensures index >= 0 ==> text.Some? && MatchesText(entries[index], text.value)
      ensures text.Some? ==> forall k | 0 <= k < |entries| && (index < 0 || k < index) :: !MatchesText(entries[k], text.value)
      ensures index == FirstMatch(entries, text)
    {
      if text.None? {
        return -1;
      }
      var i := 0;
      while i < |entries|
        invariant 0 <= i <= |entries|
        invariant forall k | 0 <= k < i :: !MatchesText(entries[k], text.value)
      {
        if entries[i].kind == CLIP_TYPE_TEXT && CStr(entries[i].text) == text.value {
          return i;
        }
        i := i + 1;
      }
      return -1;
    }

    /** `save_history`: the magic block, one record per non-empty entry, the terminator. */
    method Save(writable: bool)
      modifies this
      ensures entries == old(entries)
      ensures file == if writable then Some(Encode(entries)) else old(file)
    {
      if !writable {
        return;
      }
      var bytes := WriteHistoryFile(entries);
      file := Some(bytes);
    }

    /**
     * `truncate_history`: walks from the oldest entry towards the head, removing
     * unpinned entries while the list is longer than the limit (read back as an
     * unsigned value), then saves when `save_history` is set.
     */
    method Truncate(limit: int32, saveHistory: bool, writable: bool)
      modifies this
      ensures entries == TruncateHistory(old(entries), Unsigned32(limit))
      ensures file == if saveHistory && writable then Some(Encode(entries)) else old(file)
    {
      entries := TruncateList(entries, Unsigned32(limit));
      if saveHistory {
        Save(writable);
      }
    }

    /**
     * `history_add_text_item`: a missing text changes nothing; otherwise the first
     * matching entry moves to the front (or a new one is put there), then the
     * list is truncated and possibly saved.
     */
    method AddTextItem(text: Option<CString>, flags: uint16, limit: int32, saveHistory: bool, writable: bool)
      modifies this
      ensures text.None? ==> entries == old(entries) && file == old(file)
      ensures text.Some? ==> entries == History.AddTextItem(old(entries), text.value, flags, Unsigned32(limit))
      ensures text.Some? ==> file == if saveHistory && writable then Some(Encode(entries)) else old(file)
    {
      if text.None? {
        return;
      }
      var dup := FindDuplicateTextItem(text);
      var list := entries;
      if dup >= 0 {
        var hi := list[dup];
        list := list[..dup] + list[dup + 1..];
        list := [hi] + list;
        assert list == [entries[dup]] + entries[..dup] + entries[dup + 1..];
      } else {
        var hi := NewTextEntry(text.value, flags);
        list := [hi] + list;
      }
      assert list == History.AddText(entries, text.value, flags);
      entries := list;
      Truncate(limit, saveHistory, writable);
    }

    /** `clear_history`: removes the first unpinned entry and starts over, until none is left. */
    method Clear(saveHistory: bool, writable: bool)
      modifies this
      ensures entries == PinnedOnly(old(entries))
      ensures file == if saveHistory && writable then Some(Encode(entries)) else old(file)
    {
      var i := 0;
      while i < |entries|
        invariant 0 <= i <= |entries|
        invariant PinnedOnly(entries) == PinnedOnly(old(entries))
        invariant forall k | 0 <= k < i :: Pinned(entries[k])
        invariant file == old(file)
        decreases |entries|, |entries| - i
      {
        if !Pinned(entries[i]) {
          RemoveUnpinned(entries, i);
          entries := entries[..i] + entries[i + 1..];
          i := 0;
        } else {
          i := i + 1;
        }
      }
      KeepAll(entries, true);
      if saveHistory {
        Save(writable);
      }
    }

    /**
     * `read_history`: when the file exists, prepends every record it reads onto
     * the current list and then reverses the whole list.
     */
    method ReadHistory()
      modifies this
      ensures file == old(file)
      ensures file.None? ==> entries == old(entries)
      ensures file.Some? ==> entries == Reverse(old(entries)) + DecodeFile(file.value)
    {
      if file.Some? {
        entries := ReadRecords(file.value, entries);
      }
    }

    /**
     * `save_history_as_text`: when the file can be opened, writes every unpinned
     * entry and then every pinned one, in list order, separated by a rule.
     * Always returns 0.
     */
    method SaveAsText(canOpen: bool) returns (rc: int, written: Option<Bytes>)
      ensures rc == 0
      ensures written == if canOpen then Some(ExportText(entries)) else None
    {
      rc := 0;
      if !canOpen {
        return 0, None;
      }
      var list := entries;
      var out: Bytes := [];
      var first := true;
      var pinned := 0;
      while pinned < 2
        invariant 0 <= pinned <= 2
        invariant out == JoinTexts(Passes(list, pinned)) && first == (Passes(list, pinned) == [])
      {
        out, first := ExportPass(list, pinned == 1, out, first, Passes(list, pinned));
        PassesNext(list, pinned);
        pinned := pinned + 1;
      }
      written := Some(out);
    }
  }

  /**
   * The loop of `read_history` over the bytes of an existing file: each record
   * read is prepended to `list`, and the whole list is reversed at the end
   * (also when the file is too short to hold the magic block).
   */
  method ReadRecords(f: Bytes, list: seq<Entry>) returns (result: seq<Entry>)
    ensures result == Reverse(list) + DecodeFile(f)
  {
    var acc := list;
    if |f| >= MAGIC_SIZE {
      var pos := MAGIC_SIZE;
      var reading := true;
      while reading
        invariant pos <= |f|
        invariant reading ==> Loaded(acc, f, pos) == Reverse(list) + DecodeFile(f)
        invariant !reading ==> Reverse(acc) == Reverse(list) + DecodeFile(f)
        decreases |f| - pos, reading
      {
        var step := ReadRecord(f, pos);
        match step
        case Stop =>
          LoadedStop(acc, f, pos);
          reading := false;
        case Skip(next) =>
          LoadedSkip(acc, f, pos, next);
          pos := next;
        case Record(c, next) =>
          LoadedRecord(acc, f, pos, c, next);
          acc := [c] + acc;
          pos := next;
      }
    }
    result := Reverse(acc);
  }

  /**
   * One pass of `save_history_as_text` over the list: every entry whose pinned
   * state is `pinned` is written, after the rule unless nothing was written yet.
   */
  method ExportPass(list: seq<Entry>, pinned: bool, out: Bytes, first: bool, ghost prior: seq<Bytes>)
    returns (out': Bytes, first': bool)
    requires out == JoinTexts(prior) && first == (prior == [])
    ensures out' == JoinTexts(prior + Texts(Keep(list, pinned)))
    ensures first' == (prior + Texts(Keep(list, pinned)) == [])
  {
    out', first' := out, first;
    ghost var done := prior;
    var i := 0;
    ExportStart(prior, list, pinned);
    while i < |list|
      invariant 0 <= i <= |list|
      invariant done == Exported(prior, list, i, pinned)
      invariant out' == JoinTexts(done) && first' == (done == [])
    {
      var c := list[i];
      ExportStep(prior, list, i, pinned);
      if pinned == Pinned(c) {
        var text: Bytes := CStr(c.text);
        if !first' {
          JoinTextsSnoc(done, text);
          out' := out' + Separator();
        } else {
          assert done + [text] == [text];
        }
        out' := out' + text;
        first' := false;
        done := done + [text];
      }
      i := i + 1;
    }
    ExportDone(prior, list, pinned);
  }

  /**
   * The loop of `truncate_history`: from the oldest entry towards (never onto)
   * the head, each unpinned entry is removed while the list is longer than `lim`.
   */
  method TruncateList(h: seq<Entry>, lim: nat) returns (list: seq<Entry>)
    ensures list == TruncateHistory(h, lim)
  {
    list := h;
    var ll := |list|;
    if ll > lim {
      var i := |list| - 1;
      TruncateStepStart(h, lim);
      while i > 0 && ll > lim
        invariant ll == |list| && lim <= ll
        invariant 0 <= i < |list|
        invariant TruncateHistory(h, lim) == Scan(list, i, ll - lim)
      {
        var c := list[i];
        if !Pinned(c) {
          TruncateStepUnpinned(list, i, ll - lim);
          list := list[..i] + list[i + 1..];
          ll := ll - 1;
        } else {
          TruncateStepPinned(list, i, ll - lim);
        }
        i := i - 1;
      }
      TruncateStepDone(list, i, ll - lim);
    }
  }
}
