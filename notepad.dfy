/**
 * The tab and path bookkeeping of the editor's main window (main.py, class MainWindow).
 *
 * The window's state is the sequence of tabs of its tab widget, the widget's current index
 * and the `file_paths` dictionary, which maps a tab POSITION to the path last opened, or
 * picked in Save As, at that position. Everything the user or the file system answers (the buttons of
 * the unsaved-changes box, the path picked in a file dialog, whether a read or a write
 * succeeds, the text read) is a parameter of the operation that consults it.
 */
module Notepad {
  import opened PathNames

  /** One tab: its title on the tab bar, the text of its editor, and the editor document's
      modified flag. */
  datatype Tab = Tab(title: string, text: string, modified: bool)

  /** The tab that `new_tab` adds. */
  const Untitled := Tab("Untitled", "", false)

  /** The buttons of the unsaved-changes message box. */
  datatype Button = SaveButton | DiscardButton | CancelButton

  /** What the outside world answers while the close of one modified tab is confirmed: the
      button pressed; the path picked in the Save As dialog, "" when that dialog is cancelled
      (consulted only when Save is pressed on a tab without a path); and whether writing the
      file succeeds (consulted only when a write is attempted). */
  datatype Reply = Reply(button: Button, savePath: string, writeOk: bool)

  datatype Option<T> = None | Some(value: T)

  /** `save` clears the modified flag exactly when it reaches a write (the tab has a path, or
      the Save As dialog returned one) and the write succeeds. */
  predicate SaveSucceeds(hasPath: bool, savePath: string, writeOk: bool)
  {
    (hasPath || savePath != "") && writeOk
  }

  /** The path table after `save` on the tab at `index`: only a tab without a path gains
      one, and only when the Save As dialog was not cancelled. */
  function PathsAfterSave(paths: map<int, string>, index: int, savePath: string): (r: map<int, string>)
    ensures forall k :: k in paths ==> k in r && r[k] == paths[k]
    ensures forall k :: k in r && k !in paths ==> k == index && r[k] == savePath && savePath != ""
    ensures index !in paths && savePath != "" ==> index in r
  {
    if index in paths || savePath == "" then paths else paths[index := savePath]
  }

  /** The tab after `save`: Save As renames it to the base name of the chosen path before
      writing, so the new title survives a failed write; only a successful write clears
      the modified flag; the text is never touched. */
  function TabAfterSave(t: Tab, hasPath: bool, savePath: string, writeOk: bool): (r: Tab)
    ensures r.text == t.text
    ensures r.modified <==> t.modified && !SaveSucceeds(hasPath, savePath, writeOk)
    ensures !hasPath && savePath != "" ==> r.title == Basename(savePath)
    ensures hasPath || savePath == "" ==> r.title == t.title
  {
    var titled := if !hasPath && savePath != "" then t.(title := Basename(savePath)) else t;
    if SaveSucceeds(hasPath, savePath, writeOk) then titled.(modified := false) else titled
  }

  /** Whether the unsaved-changes prompt for a tab lets the close go on: the tab is
      unmodified, or Discard is pressed, or Save is pressed and the save clears the flag. */
  predicate Proceeds(t: Tab, hasPath: bool, reply: Reply)
  {
    || !t.modified
    || reply.button == DiscardButton
    || (reply.button == SaveButton && SaveSucceeds(hasPath, reply.savePath, reply.writeOk))
  }

  /** The tab after its unsaved-changes prompt: only Save on a modified tab changes it. */
  function TabAfterPrompt(t: Tab, hasPath: bool, reply: Reply): Tab
  {
    if t.modified && reply.button == SaveButton
    then TabAfterSave(t, hasPath, reply.savePath, reply.writeOk)
    else t
  }

  /** The first position at or after `from` whose prompt stops a window close, or |tabs|
      when there is none. */
  function FirstRefusal(tabs: seq<Tab>, paths: map<int, string>, replies: seq<Reply>, from: nat): (k: nat)
    requires |replies| == |tabs| && from <= |tabs|
    ensures from <= k <= |tabs|
    ensures forall j :: from <= j < k ==> Proceeds(tabs[j], j in paths, replies[j])
    ensures k < |tabs| ==> !Proceeds(tabs[k], k in paths, replies[k])
    decreases |tabs| - from
  {
    if from == |tabs| || !Proceeds(tabs[from], from in paths, replies[from]) then from
    else FirstRefusal(tabs, paths, replies, from + 1)
  }

  /** Whether `close_tab(index)` removes the tab: the index is positive and in range
      and the tab's prompt, if any, lets the close go on. */
  predicate CloseRemoves(tabs: seq<Tab>, paths: map<int, string>, index: int, reply: Reply)
  {
    0 < index < |tabs| && Proceeds(tabs[index], index in paths, reply)
  }

  /** Whether `close_tab(index)` calls `save` on the tab at `index`. */
  predicate CloseSaves(tabs: seq<Tab>, index: int, reply: Reply)
  {
    0 < index < |tabs| && tabs[index].modified && reply.button == SaveButton
  }

  class MainWindow {
    /** The tabs of the tab widget, in display order. */
    var tabs: seq<Tab>
    /** The tab widget's current index (-1 while it has no tab). */
    var current: int
    /** `file_paths`: tab position to file path. */
    var filePaths: map<int, string>
    /** The contents of the files this window has written successfully, by path; a failed
        write is taken to leave the file as it was. */
    ghost var written: map<string, string>

    /** Keys are never negative, and no stored path is empty (the dialogs' empty answer
        means "cancelled" and is never stored). */
    ghost predicate PathsValid()
      reads this
    {
      forall k :: k in filePaths ==> 0 <= k && filePaths[k] != ""
    }

    /** The window's invariant once constructed: at least one tab, and a current one. */
    ghost predicate Valid()
      reads this
    {
      1 <= |tabs| && 0 <= current < |tabs| && PathsValid()
    }

    /** `__init__`: an empty path table and one fresh tab. */
    constructor ()
      ensures Valid()
      ensures tabs == [Untitled] && current == 0 && filePaths == map[] && written == map[]
    {
      tabs := [];
      current := -1;
      filePaths := map[];
      written := map[];
      new;
      var _ := NewTab();
    }

    /** The tab widget's `addTab`: appends the tab and returns its index; the first tab
        added to an empty widget becomes current. */
    method AddTab(t: Tab) returns (index: int)
      modifies this`tabs, this`current
      ensures tabs == old(tabs) + [t] && index == |old(tabs)|
      ensures current == if old(tabs) == [] then 0 else old(current)
    {
      index := |tabs|;
      tabs := tabs + [t];
      if index == 0 {
        current := 0;
      }
    }

    /** The tab widget's `removeTab`: deletes the tab at `index`, shifting the later ones
        down, and leaves some valid current index (which one is the widget's own rule);
        an index out of range changes nothing. */
    method RemoveTab(index: int)
      modifies this`tabs, this`current
      ensures 0 <= index < |old(tabs)| ==> tabs == old(tabs)[..index] + old(tabs)[index + 1..]
      ensures 0 <= index < |old(tabs)| ==> if tabs == [] then current == -1 else 0 <= current < |tabs|
      ensures !(0 <= index < |old(tabs)|) ==> tabs == old(tabs) && current == old(current)
    {
      if 0 <= index < |tabs| {
        tabs := tabs[..index] + tabs[index + 1..];
        if tabs == [] {
          current := -1;
        } else {
          var next :| 0 <= next < |tabs|;
          current := next;
        }
      }
    }

    /** The user edits the current tab: its text changes and its document is marked modified. */
    method Edit(text: string)
      requires Valid()
      modifies this`tabs
      ensures Valid()
      ensures tabs == old(tabs)[current := old(tabs[current]).(text := text, modified := true)]
    {
      tabs := tabs[current := tabs[current].(text := text, modified := true)];
    }

    /** `new_tab`: appends an untitled, empty, unmodified tab at index old count and makes it
        current; nothing else changes. */
    method NewTab() returns (index: int)
      requires PathsValid()
      modifies this
      ensures Valid()
      ensures tabs == old(tabs) + [Untitled]
      ensures index == |old(tabs)| && current == index
      ensures filePaths == old(filePaths) && written == old(written)
    {
      index := AddTab(Untitled);
      current := index;
    }

    /** `save`: a current tab with a path is written there, and the write clears its modified
        flag; a current tab without one goes through `save_as`. Only the current tab and
        its path entry can change. */
    method Save(savePath: string, writeOk: bool) returns (saved: bool)
      requires Valid()
      modifies this
      ensures Valid() && current == old(current)
      ensures saved == SaveSucceeds(current in old(filePaths), savePath, writeOk)
      ensures tabs == old(tabs)[current := TabAfterSave(old(tabs[current]), current in old(filePaths), savePath, writeOk)]
      ensures filePaths == PathsAfterSave(old(filePaths), current, savePath)
      ensures written == if saved then old(written)[filePaths[current] := tabs[current].text] else old(written)
      decreases if current in filePaths then 0 else 2
    {
      if current !in filePaths {
        saved := SaveAs(savePath, writeOk);
      } else if writeOk {
        var path := filePaths[current];
        written := written[path := tabs[current].text];
        tabs := tabs[current := tabs[current].(modified := false)];
        saved := true;
      } else {
        saved := false;
      }
    }

    /** `save_as`: a cancelled dialog changes nothing and reports failure; a chosen path is
        stored for the current tab and names it BEFORE the write is attempted, so both
        persist when the write fails. */
    method SaveAs(savePath: string, writeOk: bool) returns (saved: bool)
      requires Valid()
      modifies this
      ensures Valid() && current == old(current)
      ensures saved == (savePath != "" && writeOk)
      ensures savePath == "" ==> tabs == old(tabs) && filePaths == old(filePaths) && written == old(written)
      ensures savePath != "" ==> filePaths == old(filePaths)[current := savePath]
      ensures savePath != "" ==> tabs == old(tabs)[current := TabAfterSave(old(tabs[current]), false, savePath, writeOk)]
      ensures written == if saved then old(written)[savePath := tabs[current].text] else old(written)
      decreases 1
    {
      if savePath != "" {
        ghost var before := tabs[current];
        filePaths := filePaths[current := savePath];
        tabs := tabs[current := tabs[current].(title := Basename(savePath))];
        assert tabs[current] == before.(title := Basename(savePath));
        // The nested save finds the path just stored and never shows a dialog.
        saved := Save("", writeOk);
        assert TabAfterSave(before.(title := Basename(savePath)), true, "", writeOk)
            == TabAfterSave(before, false, savePath, writeOk);
      } else {
        saved := false;
      }
    }

    /** `open_file`: a cancelled dialog or a failed read changes nothing, because the read
        comes before the new tab; a successful read appends one current, unmodified tab
        holding the text, titled with the base name, and maps its index to the path. */
    method OpenFile(openPath: string, read: Option<string>)
      requires Valid()
      modifies this
      ensures Valid() && written == old(written)
      ensures openPath == "" || read.None? ==>
                tabs == old(tabs) && current == old(current) && filePaths == old(filePaths)
      ensures openPath != "" && read.Some? ==>
                && tabs == old(tabs) + [Tab(Basename(openPath), read.value, false)]
                && current == |old(tabs)|
                && filePaths == old(filePaths)[|old(tabs)| := openPath]
    {
      if openPath != "" {
        if read.Some? {
          var text := read.value;
          ghost var before := tabs;
          var index := NewTab();
          tabs := tabs[index := tabs[index].(text := text)];
          assert tabs == before + [Tab("Untitled", text, false)];
          var at := current;
          filePaths := filePaths[at := openPath];
          tabs := tabs[at := tabs[at].(title := Basename(openPath))];
          assert tabs == before + [Tab(Basename(openPath), text, false)];
          tabs := tabs[at := tabs[at].(modified := false)];
        }
      }
    }

    /** The unsaved-changes box that `close_tab` and `closeEvent` both show for the tab at
        `i`: an unmodified tab is passed over; a modified one becomes current, and Save
        runs `save` on it. Reports whether the prompt lets the close go on. */
    method Prompt(i: int, reply: Reply) returns (proceed: bool)
      requires Valid() && 0 <= i < |tabs|
      modifies this
      ensures Valid()
      ensures proceed == Proceeds(old(tabs[i]), i in old(filePaths), reply)
      ensures current == if old(tabs[i]).modified then i else old(current)
      ensures tabs == old(tabs)[i := TabAfterPrompt(old(tabs[i]), i in old(filePaths), reply)]
      ensures filePaths == if old(tabs[i]).modified && reply.button == SaveButton
                           then PathsAfterSave(old(filePaths), i, reply.savePath) else old(filePaths)
      ensures written == if old(tabs[i]).modified && reply.button == SaveButton && proceed
                         then old(written)[filePaths[i] := old(tabs[i]).text] else old(written)
    {
      proceed := true;
      if tabs[i].modified {
        current := i;
        if reply.button == SaveButton {
          var _ := Save(reply.savePath, reply.writeOk);
          proceed := !tabs[i].modified;
        } else if reply.button == CancelButton {
          proceed := false;
        }
      }
    }

    /** `close_tab(index)`: the tab at `index` is removed exactly when CloseRemoves holds;
        otherwise only that tab can change (when Save was pressed and did not succeed).
        The path table changes only through the save, so a removal leaves every entry,
        including those at and after `index`, in place although the tabs shifted. */
    method CloseTab(index: int, reply: Reply)
      requires Valid()
      modifies this
      ensures Valid()
      ensures tabs[0] == old(tabs[0])
      ensures CloseRemoves(old(tabs), old(filePaths), index, reply) ==>
                tabs == old(tabs)[..index] + old(tabs)[index + 1..]
      ensures !CloseRemoves(old(tabs), old(filePaths), index, reply) ==>
                && |tabs| == |old(tabs)|
                && (forall j :: 0 <= j < |tabs| && j != index ==> tabs[j] == old(tabs[j]))
                && (0 < index < |tabs| ==> tabs[index] == TabAfterPrompt(old(tabs[index]), index in old(filePaths), reply))
      ensures CloseSaves(old(tabs), index, reply) ==>
                filePaths == PathsAfterSave(old(filePaths), index, reply.savePath)
      ensures !CloseSaves(old(tabs), index, reply) ==> filePaths == old(filePaths)
      ensures CloseSaves(old(tabs), index, reply) && SaveSucceeds(index in old(filePaths), reply.savePath, reply.writeOk) ==>
                written == old(written)[filePaths[index] := old(tabs[index]).text]
      ensures !(CloseSaves(old(tabs), index, reply) && SaveSucceeds(index in old(filePaths), reply.savePath, reply.writeOk)) ==>
                written == old(written)
      ensures index <= 0 || index >= |old(tabs)| ==> current == old(current)
      ensures (0 < index < |old(tabs)| && old(tabs[index]).modified &&
               !CloseRemoves(old(tabs), old(filePaths), index, reply)) ==> current == index
    {
      if index <= 0 {
        return;
      }
      if index < |tabs| {
        var proceed := Prompt(index, reply);
        if !proceed {
          return;
        }
      }
      RemoveTab(index);
      if |tabs| == 0 {
        // The source re-creates a tab here; a positive index leaves tab 0 in place.
        assert false;
      }
    }

    /** `closeEvent`: visits the tabs in order and prompts for each modified one; the first
        Cancel, or the first Save after which the tab is still modified, rejects the close,
        and no later tab is prompted or changed. The close is accepted exactly when every
        prompt let it go on. Saves made before a rejection are kept. */
    method CloseEvent(replies: seq<Reply>) returns (accepted: bool, ghost stop: nat)
      requires Valid() && |replies| == |tabs|
      modifies this
      ensures Valid()
      ensures stop == FirstRefusal(old(tabs), old(filePaths), replies, 0)
      ensures accepted <==> stop == |old(tabs)|
      ensures accepted <==> forall j :: 0 <= j < |old(tabs)| ==> Proceeds(old(tabs[j]), j in old(filePaths), replies[j])
      ensures PromptedUpTo(old(tabs), old(filePaths), replies, tabs, filePaths, if accepted then stop else stop + 1)
    {
      ghost var tabs0, paths0 := tabs, filePaths;
      var n := |tabs|;
      var i := 0;
      while i < n
        invariant 0 <= i <= n == |tabs0|
        invariant Valid()
        invariant forall j :: 0 <= j < i ==> Proceeds(tabs0[j], j in paths0, replies[j])
        invariant PromptedUpTo(tabs0, paths0, replies, tabs, filePaths, i)
      {
        ghost var tabs1, paths1 := tabs, filePaths;
        assert tabs1[i] == tabs0[i] && (i in paths1 <==> i in paths0);
        var proceed := Prompt(i, replies[i]);
        PromptStep(tabs0, paths0, replies, tabs1, paths1, tabs, filePaths, i);
        if !proceed {
          FirstRefusalAt(tabs0, paths0, replies, i);
          accepted, stop := false, i;
          return;
        }
        i := i + 1;
      }
      FirstRefusalAt(tabs0, paths0, replies, n);
      accepted, stop := true, n;
    }
  }

  /** FirstRefusal is the one position before which every prompt lets the close go on
      and at which (unless it is the end) a prompt stops it. */
  lemma FirstRefusalAt(tabs: seq<Tab>, paths: map<int, string>, replies: seq<Reply>, k: nat)
    requires |replies| == |tabs| && k <= |tabs|
    requires forall j :: 0 <= j < k ==> Proceeds(tabs[j], j in paths, replies[j])
    requires k < |tabs| ==> !Proceeds(tabs[k], k in paths, replies[k])
    ensures FirstRefusal(tabs, paths, replies, 0) == k
  {
  }

  /** The state after the prompts for positions 0 .. upto-1 of a window close, from tabs
      `tabs0` and paths `paths0`: each of those tabs is as its prompt left it, the later
      ones are untouched; no path entry changes, and a new entry appears exactly at a
      prompted position where Save was pressed on a modified tab without a path and the
      Save As dialog returned a path. */
  ghost predicate PromptedUpTo(tabs0: seq<Tab>, paths0: map<int, string>, replies: seq<Reply>,
                               tabs: seq<Tab>, paths: map<int, string>, upto: int)
    requires |replies| == |tabs0|
  {
    && |tabs| == |tabs0|
    && (forall j :: 0 <= j < upto && j < |tabs| ==>
          tabs[j] == TabAfterPrompt(tabs0[j], j in paths0, replies[j]))
    && (forall j :: upto <= j < |tabs| && 0 <= j ==> tabs[j] == tabs0[j])
    && (forall k :: k in paths0 ==> k in paths && paths[k] == paths0[k])
    && (forall k :: k in paths && k !in paths0 ==>
          && 0 <= k < upto && k < |tabs0|
          && tabs0[k].modified && replies[k].button == SaveButton
          && paths[k] == replies[k].savePath)
    && (forall k :: 0 <= k < upto && k < |tabs0| && k !in paths0 ==>
          (tabs0[k].modified && replies[k].button == SaveButton && replies[k].savePath != "") ==> k in paths)
  }

  /** One prompt of a window close: if the state before position `i` is as PromptedUpTo
      says, and position `i`'s prompt acts as the source does, the state is as
      PromptedUpTo says for one more position. */
  lemma PromptStep(tabs0: seq<Tab>, paths0: map<int, string>, replies: seq<Reply>,
                   tabs1: seq<Tab>, paths1: map<int, string>,
                   tabs2: seq<Tab>, paths2: map<int, string>, i: nat)
    requires |replies| == |tabs0| && i < |tabs0|
    requires PromptedUpTo(tabs0, paths0, replies, tabs1, paths1, i)
    requires tabs2 == tabs1[i := TabAfterPrompt(tabs1[i], i in paths1, replies[i])]
    requires paths2 == if tabs1[i].modified && replies[i].button == SaveButton
                       then PathsAfterSave(paths1, i, replies[i].savePath) else paths1
    ensures PromptedUpTo(tabs0, paths0, replies, tabs2, paths2, i + 1)
  {
  }
}
