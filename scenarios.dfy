/**
 * Short sessions with the main window, each pinned down by the contracts of the window's
 * operations alone. Paths and texts are parameters; the dialogs' empty answer means
 * "cancelled", so the paths the user picks are non-empty.
 */
module Scenarios {
  import opened PathNames
  import opened Notepad

  /** The title the window gives "/tmp/a.txt". */
  lemma TitleOfTmpA()
    ensures Basename("/tmp/a.txt") == "a.txt"
  {
    var path := "/tmp/a.txt";
    assert path[5..] == "a.txt";
    assert path[4] == '/';
    BasenameUnique(path, "a.txt");
  }

  /** A new tab holding `text`, saved through the Save As dialog to `path`: the file holds
      `text`, the tab is titled with the base name of `path` and is no longer modified. */
  method SaveNewDocument(path: string, text: string) returns (saved: bool, title: string, modified: bool, ghost content: string)
    requires path != ""
    ensures saved && title == Basename(path) && !modified && content == text
  {
    var w := new MainWindow();
    w.Edit(text);
    saved := w.Save(path, true);
    title, modified := w.tabs[0].title, w.tabs[0].modified;
    content := w.written[path];
  }

  /** Opening `path` whose read gives `text` adds a tab at position 1 with that text,
      titled with the base name, unmodified, and mapped to the path. */
  method OpenDocument(path: string, text: string) returns (count: nat, title: string, read: string, modified: bool, stored: string)
    requires path != ""
    ensures count == 2 && title == Basename(path) && read == text && !modified && stored == path
  {
    var w := new MainWindow();
    w.OpenFile(path, Some(text));
    count := |w.tabs|;
    title, read, modified := w.tabs[1].title, w.tabs[1].text, w.tabs[1].modified;
    stored := w.filePaths[1];
  }

  /** The path table is keyed by position and never cleaned: open `path` into tab 1,
      close it, add a new tab (again at position 1) and type `draft` into it. Save then
      writes `draft` over the file at `path` without showing the Save As dialog, although
      that tab never had a file. */
  method StalePathOverwrite(path: string, text: string, draft: string) returns (saved: bool, title: string, ghost content: string)
    requires path != ""
    ensures saved && title == "Untitled" && content == draft
  {
    var w := new MainWindow();
    w.OpenFile(path, Some(text));
    assert |w.tabs| == 2 && !w.tabs[1].modified && w.filePaths == map[1 := path];
    var reply := Reply(CancelButton, "", false);
    assert CloseRemoves(w.tabs, w.filePaths, 1, reply) && !CloseSaves(w.tabs, 1, reply);
    w.CloseTab(1, reply);
    assert |w.tabs| == 1 && w.filePaths == map[1 := path] && w.written == map[];
    var index := w.NewTab();
    w.Edit(draft);
    // The dialog answer "" would cancel a Save As; it is never consulted.
    saved := w.Save("", true);
    title := w.tabs[1].title;
    content := w.written[path];
  }

  /** Closing a modified tab and pressing Cancel keeps it, with its text and flag. */
  method CancelKeepsTab(text: string) returns (count: nat, kept: string, modified: bool)
    ensures count == 2 && kept == text && modified
  {
    var w := new MainWindow();
    var index := w.NewTab();
    w.Edit(text);
    w.CloseTab(1, Reply(CancelButton, "", true));
    count := |w.tabs|;
    kept, modified := w.tabs[1].text, w.tabs[1].modified;
  }

  /** Closing a modified tab and pressing Discard removes it and writes nothing. */
  method DiscardRemovesTab(text: string) returns (count: nat, ghost nothingWritten: bool)
    ensures count == 1 && nothingWritten
  {
    var w := new MainWindow();
    var index := w.NewTab();
    w.Edit(text);
    w.CloseTab(1, Reply(DiscardButton, "", true));
    count := |w.tabs|;
    nothingWritten := w.written == map[];
  }

  /** Closing a modified tab, pressing Save, picking `path` and failing to write: the tab
      stays, still modified, but already titled with the base name and mapped to `path`. */
  method FailedSaveKeepsTab(path: string, text: string) returns (count: nat, title: string, modified: bool, stored: string)
    requires path != ""
    ensures count == 2 && title == Basename(path) && modified && stored == path
  {
    var w := new MainWindow();
    var index := w.NewTab();
    w.Edit(text);
    assert w.tabs == [Untitled, Tab("Untitled", text, true)] && w.filePaths == map[];
    var reply := Reply(SaveButton, path, false);
    assert CloseSaves(w.tabs, 1, reply) && !CloseRemoves(w.tabs, w.filePaths, 1, reply);
    w.CloseTab(1, reply);
    count := |w.tabs|;
    title, modified := w.tabs[1].title, w.tabs[1].modified;
    stored := w.filePaths[1];
  }

  /** Closing the window with two modified tabs: tab 0 is saved to `path`, then Cancel is
      pressed for tab 1. The close is rejected, and the save of tab 0 is kept. */
  method PartialWindowClose(path: string) returns (accepted: bool, saved0: bool, modified1: bool)
    requires path != ""
    ensures !accepted && saved0 && modified1
  {
    var w := new MainWindow();
    w.Edit("first");
    var index := w.NewTab();
    w.Edit("second");
    var replies := [Reply(SaveButton, path, true), Reply(CancelButton, "", true)];
    ghost var stop;
    accepted, stop := w.CloseEvent(replies);
    saved0 := !w.tabs[0].modified && 0 in w.filePaths;
    modified1 := w.tabs[1].modified;
  }
}
