# Mesa's Notepad: tab and path bookkeeping

A Dafny model of the main window of a small tabbed text editor (`MainWindow` in
`main.py`). The window holds a sequence of tabs, each with a title, a text and a modified
flag; a current index; and the `file_paths` dictionary, which maps a tab *position* to the
path last opened, or picked in Save As, at that position. The model covers the operations that change
this state: `new_tab`, `close_tab`, `save`, `save_as`, `open_file`, the window-close loop
`closeEvent`, and the expression that turns a path into a tab title.

Layout:

- `path_names.dfy`, module `PathNames`: Python's `str.split` on one character, its inverse
  `Join`, `LastPart` (the last piece of a split, `s.split(sep)[-1]`) and `Basename`, the
  title of a tab; the expression the window evaluates,
  `path.split("/")[-1].split("\\")[-1]`, is proved equal to `Basename`, and both are
  characterised as the separator-free suffix that is all of the string or follows a separator.
- `notepad.dfy`, module `Notepad`: the `Tab`, `Button` and `Reply` datatypes, the pure
  descriptions of what one save and one unsaved-changes prompt do, and the class
  `MainWindow`, whose methods update `tabs`, `current` and `filePaths` in place.
- `scenarios.dfy`, module `Scenarios`: short sessions with a window whose outcome follows
  from the operations' contracts alone.

The outside world is a parameter of each operation: the button pressed in the
unsaved-changes box, the path picked in a file dialog (`""` for a cancelled dialog),
whether a write succeeds (`writeOk`), and the result of a read (`None` for a failed read,
`Some(text)` otherwise). A `Reply` bundles the three answers a prompt can consume.

The behaviour of the tab widget that the source relies on is written out as two methods of
the class with their own contracts: `AddTab` appends and returns the new index (and makes
the first tab of an empty widget current); `RemoveTab` deletes one tab, shifts the later ones
down and leaves *some* valid current index, chosen by the widget's own rule and left
unspecified here; an out-of-range `RemoveTab` changes nothing. `Edit` stands for the user
typing into the current tab, which sets its modified flag.

Behaviour the model makes precise:

- `close_tab` returns at once for index 0, so tab 0 is never removed and the window never
  loses its last tab; the branch at main.py:121-122 that re-creates a tab after the last one
  is removed can never run (the model asserts that it is dead).
- `file_paths` is never re-keyed when a tab is removed. After a removal every entry stays at
  its old key, so a path can attach to whatever tab later sits at that position:
  `Scenarios.StalePathOverwrite` shows an untitled tab whose Save silently overwrites a file
  that an earlier, closed tab had opened.
- `save_as` stores the path and sets the title before it writes, so both persist when the
  write fails.
- A rejected window close keeps the saves made for earlier tabs.

## Model

| member | source | states |
|---|---|---|
| `PathNames.Split` | main.py:154 | Python's `split` on one character: at least one piece, and no piece contains the separator |
| `PathNames.JoinSplit` | main.py:154 | joining the pieces of a split with the separator gives back the original string |
| `PathNames.SplitWithoutSeparator` | main.py:154 | a string without the separator splits into just itself |
| `PathNames.LastPart` | main.py:154 | `s.split(sep)[-1]` is a suffix of `s` without `sep`, preceded by `sep` when shorter than `s`, and all of `s` when `s` has no `sep` |
| `PathNames.LastPartUnique` | main.py:154 | those properties determine `LastPart`: any `sep`-free suffix that is all of `s` or follows a `sep` is it |
| `PathNames.LastPartIsLastPiece` | main.py:154 | `LastPart(s, sep)` is the last element of `Split(s, sep)`, i.e. Python's `s.split(sep)[-1]` |
| `PathNames.Basename` | main.py:154 | the tab title derived from a path is a suffix of the path, contains neither '/' nor '\\', is preceded by one of them when shorter than the path, and is the whole path when it has no separator |
| `PathNames.BasenameIsSplitExpression` | main.py:154 | the title is exactly the expression the window evaluates: the last piece, split at '\\', of the last piece of the path split at '/' |
| `PathNames.BasenameUnique` | main.py:172 | those properties determine the title: any separator-free suffix that is the whole path or follows a separator is the title |
| `Notepad.PathsAfterSave` | main.py:130-153 | a save keeps every existing path entry and adds one only for a current tab without a path whose Save As dialog returned a non-empty path |
| `Notepad.TabAfterSave` | main.py:134-141 | a save never changes the text, clears the modified flag exactly when a write is reached and succeeds, and renames the tab to the base name of the Save As path even when the write fails |
| `Notepad.FirstRefusal` | main.py:73-91 | the first tab whose prompt stops a window close: every earlier tab was unmodified, Discarded or successfully Saved, and this one was Cancelled or is still modified after Save |
| `Notepad.FirstRefusalAt` | main.py:73-91 | the window close stops at `k` exactly when every tab before `k` lets it go on and tab `k` (if any) stops it |
| `Notepad.PromptStep` | main.py:73-91 | one iteration of the window-close loop changes only the visited tab and adds at most the visited tab's own path entry |
| `Notepad.MainWindow.constructor` | main.py:21-37 | a new window has exactly one tab, titled "Untitled", empty and unmodified, current, and an empty path table |
| `Notepad.MainWindow.AddTab` | main.py:95 | the tab widget's `addTab` appends the tab and returns its index, the old count |
| `Notepad.MainWindow.RemoveTab` | main.py:120 | the tab widget's `removeTab` deletes one tab and shifts the later ones down, leaving some valid current index; an index out of range changes nothing |
| `Notepad.MainWindow.NewTab` | main.py:93-97 | appends exactly one "Untitled", empty, unmodified tab at index old count and makes it current; the other tabs, the path table and the files are unchanged |
| `Notepad.MainWindow.Save` | main.py:124-141 | with a path entry: a successful write stores the tab's text in the file, clears the flag and returns true, a failed write returns false and changes no tab, path or recorded file content; without one it behaves as Save As; only the current tab and its own path entry can change |
| `Notepad.MainWindow.SaveAs` | main.py:143-156 | a cancelled dialog returns false and changes no tab, title, path or file; a chosen path is stored at the current index and names the tab before the write, so both persist when the write fails; the result is true exactly when the write succeeds |
| `Notepad.MainWindow.OpenFile` | main.py:158-175 | a cancelled dialog or failed read leaves tabs, current index and paths unchanged; a successful read appends exactly one current, unmodified tab with the text read, titled with the base name, and maps its index to the path |
| `Notepad.MainWindow.Prompt` | main.py:104-118 | the unsaved-changes box for one tab: reports exactly whether the close may go on (unmodified, Discard, or a Save that cleared the flag); a modified tab becomes current; only Save on a modified tab changes that tab, its own path entry and the files, as one `save` does |
| `Notepad.MainWindow.CloseTab` | main.py:99-122 | removes the tab exactly when the index is positive and in range and the tab is unmodified, Discarded, or Saved successfully; otherwise only that tab may change (Save As renaming), and a prompted (modified) tab becomes the current one; an index ≤ 0 or out of range changes nothing; tab 0 is never removed and at least one tab remains; the path table changes only through the save, never by the removal, so entries at and after the index stay where they were |
| `Notepad.MainWindow.CloseEvent` | main.py:72-91 | prompts the modified tabs in index order, stops at the first Cancel or still-modified Save, leaves every later tab unchanged, keeps the earlier saves, and accepts the close exactly when every modified tab was Discarded or successfully Saved |
| `Scenarios.TitleOfTmpA` | main.py:154 | the title of "/tmp/a.txt" is "a.txt" |
| `Scenarios.SaveNewDocument` | main.py:124-156 | typing any text into the first tab and saving it through the Save As dialog to a path writes that text there, titles the tab with the path's base name and clears its flag |
| `Scenarios.OpenDocument` | main.py:158-175 | opening a path whose read succeeds gives a second tab with the text read, titled with the base name, unmodified and mapped to the path |
| `Scenarios.StalePathOverwrite` | main.py:120 | after closing a tab opened from a path, a new untitled tab at the same position saves its own text over that file without a dialog |
| `Scenarios.CancelKeepsTab` | main.py:117-118 | Cancel on a modified tab keeps it with its text and its modified flag |
| `Scenarios.DiscardRemovesTab` | main.py:113-120 | Discard on a modified tab removes it without writing any file |
| `Scenarios.FailedSaveKeepsTab` | main.py:113-116 | Save with a failed write keeps the tab, still modified, yet already titled with the chosen path's base name and mapped to it |
| `Scenarios.PartialWindowClose` | main.py:84-91 | a window close rejected by Cancel on the second tab keeps the save already made for the first |

## Left out

- The "+" button of the tab bar, the menu, the shortcuts and the signal wiring (main.py:6-18,
  39-70): they only connect user input to the modelled operations; the Ctrl+W action is
  `CloseTab` applied to the current index.
- The message boxes and file dialogs themselves and their texts: each becomes the answer it
  returns. The error boxes shown after a failed read or write have no effect on the state.
- File reads and writes, text encoding and exception kinds: a read is `None` or `Some(text)`,
  a write succeeds or not; the ghost field `written` records what successful writes stored.
- The checks that a tab's widget is a plain-text editor: every tab is one, so they always hold.
- Which tab the widget makes current after a removal: any valid index is allowed.
- Application start-up and the event loop (main.py:177-183).
- Notepad.MainWindow.Save: a failed write is modelled as leaving the file's content as it
  was; the source opens the file for writing first, which truncates it, so a write that
  fails after the open can leave the file empty or partly written.
- `Notepad.MainWindow.CloseEvent`: does not state the file contents written by the saves it
  triggers, nor which tab is current afterwards (the last one prompted).
