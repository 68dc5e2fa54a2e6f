# Image status review: a Dafny model of its core

The program is a small Streamlit tool. A reviewer picks a date, which names
a folder (`YYYYMMDD`). The tool shows every image in that folder with a radio
widget of status options. The chosen statuses go into `statuses.json` in the
folder. Above the images, an overview counts how many images carry each
status and lists them.

This project models the four pieces of logic inside `main.py` as pure Dafny
functions and methods over `seq`, `set` and `map`:

- **Image filter** (`get_image_files`): module `ImageFiles`, which uses
  module `Paths` for the POSIX `os.path.splitext` and ASCII lower-casing.
- **Status store** (`load_statuses`, `save_statuses`): module `StatusStore`.
  This covers the reconciliation of stored labels against the current
  options, the error paths, and the write outcomes.
- **Status summary** (`display_status_summary_with_expanders`): module
  `Summary`. It holds the counting loop, the per-status listing, and the
  reference definition both are proved against.
- **Record rebuild** (`display_images_with_status`) and one whole session:
  module `Session`.

Side effects are parameters:

- the directory listing is a `seq<string>`;
- the statuses file is a `StatusFile` (missing, unreadable, or parsed into a
  JSON object or some other JSON value);
- the result of a write is a `WriteOutcome`;
- the image library and the reviewer are two oracles:
  - `displays(f)`: opening, resizing and showing image `f` succeeds;
  - `pick(f, d)`: the option index the reviewer leaves selected for `f` when
    the widget is pre-selected at `d`.

Three behaviours of the code are modelled exactly as written:

- **No status options.** An empty list of options does not crash the
  program. In `load_statuses`, the `IndexError` from
  `status_options[0]` is caught by the `except`, so a file with entries
  loads as the empty record plus one error. In `display_images_with_status`,
  `status_options[0]` is evaluated eagerly inside the `try`, so every image
  that displays reports an error and is left out. The saved record is then
  empty. `Load` and `Session.Selection` model both paths.
- **Non-object JSON.** A statuses file whose JSON is not an object fails at
  `.items()`. This is reported like a parse error.
- **Non-string values.** A JSON value that is not a string is never among
  the options, so it is replaced by the first option.

## Model

| member | source | states |
|---|---|---|
| Paths.SplitExt | main.py:10 | `os.path.splitext`: root and extension concatenate to the name. The extension is non-empty exactly when some position qualifies as its start. That position is the last dot, has no separator after it, and has a non-dot character before it in the last path component. |
| ImageFiles.GetImageFiles | main.py:8-10 | Every returned name has a lower-cased extension in `.png`/`.jpg`/`.jpeg`. The result is a subsequence of the listing. An image file occurs exactly as often as in the listing; any other name never occurs. |
| ImageFiles.ListedImagesAreKept | main.py:10 | Completeness: every listed name that passes the extension test is returned. |
| ImageFiles.IsImageFileIff | main.py:9-10 | The extension test holds iff the name ends, ignoring ASCII case, with `.png`, `.jpg` or `.jpeg`, and the last path component has a non-dot character before that suffix. |
| ImageFiles.DotfilesAreNotImages | main.py:10 | `.png` and `..jpg` have no extension (leading dots are skipped), so they are not kept. |
| ImageFiles.FilterScenario | main.py:8-10 | The listing `[x.jpg, y.png, z.txt]` filters to `[x.jpg, y.png]`. |
| ImageFiles.ExtensionScenarios | main.py:9-10 | Upper-case `SCAN.JPEG` and dotfile `.hidden.png` are kept; `photo.png.bak` is not, because only the last dot counts. |
| StatusStore.Reconcile | main.py:28-31 | The key set is unchanged. Every value ends up among the options. A string value already among them is kept, and any other value becomes the first option. |
| StatusStore.ReconcileKeepsValidRecord | main.py:29-31 | A record whose labels are all options passes through reconciliation unchanged. |
| StatusStore.ReconcileIdempotent | main.py:29-31 | Reconciling a reconciled record changes nothing. |
| StatusStore.Load | main.py:22-35 | A missing file gives the empty record with no error. An unreadable file or non-object JSON gives the empty record and an error. With options, an object loads as its reconciliation. Without options, a non-empty object gives the empty record and an error. The result is always within the vocabulary. |
| StatusStore.Save | main.py:13-19 | The success notice is shown exactly when the write completes. The file then holds the record's JSON. A failed open leaves the old file. An interrupted dump leaves an unreadable file. |
| StatusStore.SaveThenLoad | main.py:13-35 | Writing a record and loading it gives its reconciliation, with no error. |
| StatusStore.SaveThenLoadExact | main.py:13-35 | A record within the vocabulary is read back exactly as it was written. |
| StatusStore.SaveEmptyThenLoad | main.py:13-35 | Saving `{}` and loading with any options gives `{}` and no error. |
| StatusStore.LoadScenario | main.py:28-32 | With options `[OK, Blocked]`, `{a.png: Blocked, b.png: Unknown}` loads as `{a.png: Blocked, b.png: OK}`. |
| Summary.CountStatuses | main.py:65-70 | The counting loop yields one count per option, and each count is the exact number of entries with that label. |
| Summary.ListStatus | main.py:77-81 | The expander lists exactly the files whose status equals the label, each once. The number listed equals the count in its header. |
| Summary.SummaryTotal | main.py:65-70 | Over distinct options, the counts sum to the number of entries labelled with an option. That is at most the record's size, and exactly its size when the record is reconciled. |
| Summary.SummaryScenario | main.py:65-70 | `{a.png: Blocked, b.png: OK}` over `[OK, Blocked]` counts one of each. |
| Session.IndexOf | main.py:53 | `list.index`: absent exactly when the label is not an option; otherwise it is the first position holding the label. |
| Session.DefaultIndex | main.py:53 | The pre-selection exists exactly when there are options and the image has no prior status or its prior status is an option. Otherwise `status_options[0]` raises `IndexError` or `.index` raises `ValueError`. When it exists, it points at the prior status, or at the first option for an image without one. |
| Session.DefaultIndexValid | main.py:53 | With options and a reconciled prior record, the pre-selection index exists. It points at the prior status, or at option 0 for an image without one. |
| Session.Selection | main.py:46-58 | An image gets a status exactly when it displays and its pre-selection can be computed. That status is the option the reviewer picked starting from that pre-selection, so it is always an option. |
| Session.DisplayImagesWithStatus | main.py:42-58 | The new record's keys are exactly the listed images whose step succeeded, each mapped to its picked status, which is an option. |
| Session.SelectionIffDisplayed | main.py:41-58 | With options and a loaded prior record, an image enters the new record exactly when it could be shown. |
| Session.RunSession | main.py:38-60 | After a completed write, the file's keys are exactly the listed image files that displayed, or none when there are no options. Each value is the picked option. Earlier entries for other names are dropped, and loading the file keeps the same keys. |

## Left out

- Streamlit rendering (titles, `st.image`, `st.write`, expanders, success and error banners): UI. Only which notice is shown is modelled.
- PIL `Image.open` and the 50% resize (main.py:47-49): a foreign library used only for display. Its failure is the `displays` oracle returning false.
- JSON text, `json.load`/`json.dump` and file open/write (main.py:15-16, main.py:26-27): I/O and a library. They are modelled as what the file parses to and how a write ends.
- Error message texts: only whether an error is reported is modelled.
- `os.listdir`, `os.path.isdir`, `os.path.join`, and the date-to-`%Y%m%d` folder name (main.py:84-107): filesystem and datetime plumbing. The listing is an input.
- `main`'s fixed catalogue of three bilingual labels and the multiselect (main.py:91-100): the chosen options are an input.
- Paths.Lower: lower-casing covers ASCII letters only. Python's `str.lower` also folds non-ASCII letters. This could change the result only if a non-ASCII character lower-cased to a letter of `png`, `jpg` or `jpeg`.
- Paths.SplitExt: models the POSIX `os.path.splitext` (separator `/`). The Windows flavour, which also treats `\` and drive letters as separators, is not modelled.
- Summary.ListStatus: the expander lists files in the dict's insertion order. The model proves which files are listed, not their order, because a Dafny map has no order.
- Summary.SummaryTotal: the source never sums the counts. The total is stated over distinct options, as the dict `status_counts` keys them.
- Streamlit re-runs the script on every interaction. The model is one pass over the listing, as in a single run.
