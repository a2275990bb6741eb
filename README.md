# lawfirm-ai-bot: ingestion, session tables and folder loader in Dafny

This project models the parts of the law-firm PDF chat assistant that have their own logic:

- **PDF ingestion** (`ingest_pdf`, module `Ingest`, file `ingest.dfy`). One Document record is
  built for each upload, with the label taken from the path after its last `/`. Then one Page
  record is built per PDF page, in page order. Each page is numbered from 1. A page whose native
  text is whitespace only is marked scanned and gets the OCR text instead. A page that ends up with
  empty text gets the placeholder `"[No text extracted]"`. The method builds the page sequence in a
  loop, like the source, and is proved equal to a per-page specification function. Lemmas then
  prove page numbering, classification, ownership and the placeholder rules about that function.
- **The chat front end's session state** (module `App`, file `app.dfy`):
  - `extract_text`: page texts run together with no separator.
  - The 800-character preview.
  - The session-state initialisation loop, which only adds missing keys.
  - The handlers for save, preview, reset, delete, select and ask. They act on the two tables
    `docs` and `chat` and on `last_doc`.

  The handlers are methods of a `Session` class whose fields the methods reassign. Each method is
  tied to a pure transition function on a `Tables` value. The invariant that `docs` and `chat`
  always have the same labels is proved for each handler. It is also proved for every run of
  handlers.
- **The folder loader** (`extract_text_from_pdfs`, module `LoadPdf`, file `load_pdf.dfy`). Entries
  whose lower-cased names end with `.pdf` contribute their page texts. Files come in listing order
  and pages in page order, with no separators. The nested loops are proved against a
  specification function. Its join form, its length and its filtering are proved as lemmas.

The shared string helpers are in module `Text` (`text.dfy`): Python's `str.strip()`, ASCII
lower-casing, suffix tests and concatenation. `Option` is in module `Wrappers` (`wrappers.dfy`).

Foreign calls become inputs:
- A PDF is the sequence of what the PDF reader's `get_text()` returns for each page, paired with
  what OCR returns for that page.
- The Document identifier that the database assigns is a parameter.
- A directory listing is a sequence of entries, each with its name and page texts.
- The retrieval index, the answers and the sources are opaque type parameters.

Behaviour of the code worth noting:
- The placeholder is stored only when the OCR output is exactly the empty string. The OCR output
  is not stripped (`ingest.py:37,42`), so whitespace-only OCR output is stored as it is.
- The Document row is committed before any page is processed (`ingest.py:25`). Ingestion is
  therefore not all-or-nothing, and the model does not claim that it is.

The loops and handlers are proved against specification functions whose properties are stated
by the lemmas in the rows below, so they have no rows of their own:
- `Ingest.Pages`: the pages of `ingest_pdf`.
- `LoadPdf.FolderText` and `LoadPdf.PdfPageTexts`: the result of `extract_text_from_pdfs`.
- `LoadPdf.IsPdfName`: the name filter at `load_pdf.py:7`, characterised by
  `LoadPdf.IsPdfNameCases`.
- `App.WithDefaults`: the session-state initialisation.
- `App.SessionDefaults`: the defaults at `app.py:49-53`, which `App.FreshSession` is stated about.
- `App.Step` and `App.Run`: handlers applied one after another.

## Model

| member | source | states |
|---|---|---|
| `Text.Strip` | ingest.py:32 | the stripped text is no longer than the input and neither starts nor ends with whitespace |
| `Text.StripInfix` | ingest.py:32 | the stripped text is the infix after the leading whitespace, and only whitespace lies outside it on either side |
| `Text.StripEmpty` | ingest.py:32-33 | stripping gives the empty string exactly when the text is whitespace only |
| `Text.StripUnpadded` | ingest.py:32 | a text that neither starts nor ends with whitespace is left unchanged |
| `Text.StripIdempotent` | ingest.py:32 | stripping twice is the same as stripping once |
| `Text.LowerChar` | load_pdf.py:7 | a lower-cased character is never an ASCII capital, and it is an ASCII lower-case letter exactly when the input is an ASCII letter of either case |
| `Text.Lower` | load_pdf.py:7 | lower-casing keeps the length, leaves no ASCII capital in the result, and leaves every character that is not an ASCII letter in place |
| `Text.LowerIdempotent` | load_pdf.py:7 | lower-casing a lower-cased string changes nothing |
| `Text.LowerIgnoresCase` | load_pdf.py:7 | two strings that differ only in the case of ASCII letters lower to the same string |
| `Text.JoinAppend` | app.py:64 | joining two runs of parts is the concatenation of their joins |
| `Text.JoinLength` | load_pdf.py:9-10 | the joined string is as long as all its parts together |
| `Text.JoinAt` | app.py:64 | part k sits in the joined string right after the characters of parts 0..k |
| `Ingest.Label` | ingest.py:20 | the label is a suffix of the path with no `/`; it is preceded by `/` unless it is the whole path; a path without `/` is its own label |
| `Ingest.LabelAfterLastSlash` | ingest.py:20 | for any directory part, the label of `dir/name` is `name` |
| `Ingest.PageAt` | ingest.py:39-44 | the page built for index i belongs to the given document, is numbered i + 1 and never has empty text |
| `Ingest.PageAtClassifies` | ingest.py:32-42 | a page is scanned exactly when its native text is whitespace only; a native page holds its stripped native text; a scanned page holds the OCR text, or the placeholder when OCR returned "" |
| `Ingest.BuildPage` | ingest.py:32-44 | the loop body builds exactly the specified page for its index, and marks it scanned exactly when the native text is whitespace only |
| `Ingest.PagesAt` | ingest.py:31-44 | stored page k is the page built from PDF page k at index k |
| `Ingest.PagesInOrder` | ingest.py:31-45 | one stored page per PDF page, in order; page k belongs to the Document, is numbered k + 1, has non-empty text and is scanned exactly when the native text of PDF page k is whitespace only |
| `Ingest.IngestPdf` | ingest.py:10-49 | the Document has the given id, owner, path-derived label and path; exactly one page per PDF page, in order; each page belongs to that Document, is numbered k + 1, has non-empty text and is scanned exactly when its native text is whitespace only |
| `Ingest.PageNumbers` | ingest.py:31-41 | an N-page PDF yields N pages whose numbers are 1..N in order, and the set of numbers is exactly {1..N} |
| `Ingest.PagesBelongToDocument` | ingest.py:39-42 | every stored page carries the id of the Document of the same call and has non-empty text |
| `Ingest.OcrIgnoredOnNativePages` | ingest.py:32-37 | on a page with native text, the OCR output makes no difference to the stored page |
| `Ingest.NativePageText` | ingest.py:32-42 | a native page is not scanned, and the placeholder fallback never applies to it: its text is the non-empty stripped native text |
| `Ingest.MixedPdf` | ingest.py:31-44 | a native "Hello world" page followed by a blank page gives page 1 native "Hello world" and page 2 scanned with the placeholder |
| `App.ExtractText` | app.py:62-64 | the result is as long as all page texts together, and each page's text sits at its offset in page order |
| `App.Preview` | app.py:82 | the preview is the first 800 characters of the text (all of it if shorter) followed by one ellipsis |
| `App.WithDefaultsAddsMissing` | app.py:49-55 | with distinct default keys, initialisation adds exactly the default keys, keeps every existing value and gives each missing key its default |
| `App.WithDefaultsKeepsEntries` | app.py:49-55 | every existing entry survives initialisation unchanged, and every default key is present afterwards |
| `App.WithDefaultsWhenPresent` | app.py:49-55 | a state that already holds every default key is left unchanged |
| `App.WithDefaultsIdempotent` | app.py:49-55 | initialising a second time, as each rerun does, changes nothing |
| `App.InitSessionState` | app.py:49-55 | the loop's result is the initialised state: existing entries are kept, default keys are present, and missing keys get their defaults |
| `App.FreshSession` | app.py:49-55 | an empty session gets `docs` = {}, `chat` = {} and `last_doc` = None beside whatever else it held |
| `App.Saved` | app.py:74-75 | save sets `docs[label]` to the new entry and `chat[label]` to the empty history, replaces any earlier entry, keeps every other label and `last_doc`, and keeps the two tables' labels equal |
| `App.ChatReset` | app.py:84-85 | reset empties the label's history and sets `last_doc` to the label; `docs` and every other history are unchanged; the tables' labels stay equal |
| `App.Deleted` | app.py:88-90 | delete removes the label from both tables, sets `last_doc` to None, keeps every other label's entries, and keeps the tables' labels equal |
| `App.Selected` | app.py:96 | selecting a listed label makes it `last_doc` and changes neither table |
| `App.Asked` | app.py:110-121 | a non-empty question appends exactly one (question, answer, sources) turn to the end of the selected history and keeps earlier turns; an empty question changes nothing; other labels, `docs` and `last_doc` are unchanged |
| `App.SaveReplaces` | app.py:74-75 | saving twice under one label keeps only the second save |
| `App.DeleteUndoesSave` | app.py:74-90 | deleting a label that was just saved as new restores the tables from before the save |
| `App.RunKeepsSameKeys` | app.py:66-121 | every run of handlers that starts from tables with equal labels ends with tables that still have equal labels |
| `App.AskNeverRefused` | app.py:94-121 | while the invariant holds, a label that has a document can always be selected and asked about |
| `App.Session.constructor` | app.py:49-55 | a freshly initialised session has no documents, no histories and no `last_doc`, and satisfies the invariant |
| `App.Session.Save` | app.py:66-76 | the handler's new state is `Saved` of the old state, with the text extracted from the pages; the invariant is kept |
| `App.Session.ShowPreview` | app.py:81-82 | returns the preview of the text saved under the label |
| `App.Session.ResetChat` | app.py:83-86 | the handler's new state is `ChatReset` of the old state; the invariant is kept |
| `App.Session.Delete` | app.py:87-91 | the handler's new state is `Deleted` of the old state; the invariant is kept |
| `App.Session.Select` | app.py:94-96 | the handler's new state is `Selected` of the old state; the invariant is kept |
| `App.Session.Ask` | app.py:110-121 | the handler's new state is `Asked` of the old state; the invariant is kept |
| `LoadPdf.IsPdfNameCases` | load_pdf.py:7 | a name passes the filter exactly when its last four characters are `.`, `p`/`P`, `d`/`D`, `f`/`F` |
| `LoadPdf.IsPdfNameExamples` | load_pdf.py:7 | `A.PDF` passes the filter; `a.pdf.txt` and `pdf` do not |
| `LoadPdf.PdfEntries` | load_pdf.py:7 | an entry of the listing is kept exactly when its name passes the filter, and nothing else is kept |
| `LoadPdf.PdfEntriesAppend` | load_pdf.py:6-7 | filtering a listing split in two is filtering each part, results one after the other, so kept entries stay in listing order |
| `LoadPdf.FolderTextIsJoin` | load_pdf.py:6-10 | the result is the page texts of the PDF entries, files in listing order and pages in page order, joined with no separator |
| `LoadPdf.FolderTextLength` | load_pdf.py:9-10 | the result's length is the sum of the lengths of all contributed page texts |
| `LoadPdf.OnlyPdfsContribute` | load_pdf.py:5-12 | dropping the entries that fail the filter leaves the result unchanged |
| `LoadPdf.NoPdfNoText` | load_pdf.py:5-12 | a listing with no PDF name gives the empty string |
| `LoadPdf.ExtractTextFromPdfs` | load_pdf.py:4-12 | the nested loops compute the folder text: the join of the PDF entries' page texts, with their total length |

## Left out

- PDF parsing, rendering a page at 2x scale, and OCR (`ingest.py:30-37`, `app.py:63`,
  `load_pdf.py:8`) are foreign calls. Their outputs are inputs to the model.
- The database session, its commits and id assignment (`ingest.py:23-27,45-47`) are left out.
  The Document id is a parameter and the result is the records that would be added. The model
  does not claim all-or-nothing persistence: the Document is committed before the pages are
  processed, so a failure partway leaves a Document with no pages.
- The upload and creation timestamps of Document and Page are clock values and are not modelled.
- `Text.Lower`, `Text.LowerChar`: lower-case ASCII letters only, unlike Python's full Unicode
  `str.lower()`. For example, U+212A KELVIN SIGN lowers to `k` in Python but is left unchanged
  here, and U+0130 lowers to two characters in Python. This does not change the `.pdf` suffix
  test: only `.`, `p`/`P`, `d`/`D` and `f`/`F` lower-case to a single `.`, `p`, `d` or `f`.
- `Text.Strip`: uses a fixed table of the code points that Python's `str.isspace()` accepts. The
  model does not follow later Unicode versions changing that table.
- Opening a matching entry can fail (a corrupt file, or a directory named `x.pdf`). That aborts
  `extract_text_from_pdfs` (`load_pdf.py:8`). The model has no failure outcome: every entry
  carries its page texts.
- The order of the directory listing (`load_pdf.py:6`) depends on the operating system. The
  listing is an input sequence.
- Streamlit rendering, reruns, widgets, the spinner and authentication (`app.py:1-46`) are left
  out. Which button fires is the choice of handler and its arguments.
- Building the retrieval index and querying it through the hosted language model
  (`app.py:69-73,98,113-114`) are left out. The index, answer and sources are opaque values.
- Showing the chat history and sources (`app.py:100-107,115-120`) is rendering only.
- `App.Session.Delete`, `App.Session.ResetChat`, `App.Session.Ask`, `App.Session.Select`: these
  require the label to have a document, because the front end only offers listed labels.
  Deleting an unlisted label would raise `KeyError` at `app.py:88`, and that error path is not
  modelled.
- analytics.py (database group-by queries and charts), models.py (table declarations, used only
  as record shapes) and test_bot.py (a call to the hosted service) have no logic of their own to
  model.
