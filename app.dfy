/**
 The chat front end's own logic: the text handed to the index when a PDF is saved, the
 preview of a saved text, the initialisation of the session state, and the handlers that keep
 the two tables of the session in step: `docs` (label to saved text and index) and `chat`
 (label to question/answer history), plus the most recently touched label `last_doc`.
 The retrieval index, the answers and the sources come from services outside this model and
 are carried as opaque values of the type parameters `Idx`, `Ans` and `Src`.
 */
module App {
  import opened Wrappers
  import opened Text

  /** How many characters of a saved text the preview shows. */
  const PreviewLength: nat := 800

  /** The character appended to every preview, U+2026 HORIZONTAL ELLIPSIS. */
  const Ellipsis: char := '\U{2026}'

  /**
   `extract_text`: the page texts of the uploaded PDF run together in page order with no
   separator. It is as long as all pages together, and page `k` sits right after pages `0..k`.
   */
  function ExtractText(pages: seq<string>): (r: string)
    ensures |r| == SumLengths(pages)
    ensures forall k :: 0 <= k < |pages| ==>
      && SumLengths(pages[..k]) + |pages[k]| <= |r|
      && r[SumLengths(pages[..k])..SumLengths(pages[..k]) + |pages[k]|] == pages[k]
  {
    JoinLength(pages);
    assert forall k :: 0 <= k < |pages| ==>
      && SumLengths(pages[..k]) + |pages[k]| <= |Join(pages)|
      && Join(pages)[SumLengths(pages[..k])..SumLengths(pages[..k]) + |pages[k]|] == pages[k]
    by {
      forall k | 0 <= k < |pages| {
        JoinAt(pages, k);
      }
    }
    Join(pages)
  }

  /**
   The preview of a saved text: its first 800 characters (all of it when shorter) followed by
   an ellipsis.
   */
  function Preview(text: string): (r: string)
    ensures |r| == (if |text| < PreviewLength then |text| else PreviewLength) + 1
    ensures r[..|r| - 1] == text[..|r| - 1]
    ensures r[|r| - 1] == Ellipsis
  {
    (if |text| <= PreviewLength then text else text[..PreviewLength]) + [Ellipsis]
  }

  // ---------------------------------------------------------------------------------------
  // Session-state initialisation
  // ---------------------------------------------------------------------------------------

  /** No key occurs twice among the defaults, as in the items of a dictionary. */
  ghost predicate DistinctKeys<K, V>(defaults: seq<(K, V)>)
  {
    forall i, j :: 0 <= i < j < |defaults| ==> defaults[i].0 != defaults[j].0
  }

  /** The keys of the defaults. */
  ghost function DefaultKeys<K, V>(defaults: seq<(K, V)>): set<K>
  {
    set i | 0 <= i < |defaults| :: defaults[i].0
  }

  /** The session state after the defaults are put in, in order, for each key still missing. */
  function WithDefaults<K, V>(state: map<K, V>, defaults: seq<(K, V)>): map<K, V>
    decreases |defaults|
  {
    if defaults == [] then state
    else
      var key := defaults[0].0;
      WithDefaults(if key in state then state else state[key := defaults[0].1], defaults[1..])
  }

  /**
   Initialisation adds exactly the missing default keys: a key the state already has keeps
   its value, and a missing one gets its default.
   */
  lemma {:induction false} WithDefaultsAddsMissing<K, V>(state: map<K, V>, defaults: seq<(K, V)>)
    requires DistinctKeys(defaults)
    decreases |defaults|
    ensures WithDefaults(state, defaults).Keys == state.Keys + DefaultKeys(defaults)
    ensures forall k :: k in state ==> WithDefaults(state, defaults)[k] == state[k]
    ensures forall i :: 0 <= i < |defaults| && defaults[i].0 !in state ==>
      WithDefaults(state, defaults)[defaults[i].0] == defaults[i].1
  {
    if defaults != [] {
      var key := defaults[0].0;
      var next := if key in state then state else state[key := defaults[0].1];
      var rest := defaults[1..];
      WithDefaultsAddsMissing(next, rest);
      assert DefaultKeys(defaults) == {key} + DefaultKeys(rest) by {
        forall k | k in DefaultKeys(defaults) ensures k in {key} + DefaultKeys(rest) {
          var i :| 0 <= i < |defaults| && defaults[i].0 == k;
          if i > 0 { assert rest[i - 1].0 == k; }
        }
        forall k | k in DefaultKeys(rest) ensures k in DefaultKeys(defaults) {
          var i :| 0 <= i < |rest| && rest[i].0 == k;
          assert defaults[i + 1].0 == k;
        }
      }
      forall i | 0 <= i < |defaults| && defaults[i].0 !in state
        ensures WithDefaults(state, defaults)[defaults[i].0] == defaults[i].1
      {
        if i > 0 {
          assert rest[i - 1] == defaults[i];
          assert defaults[i].0 != key;
        }
      }
    }
  }

  /** Initialising again, as every rerun of the script does, changes nothing. */
  lemma {:induction false} WithDefaultsIdempotent<K, V>(state: map<K, V>, defaults: seq<(K, V)>)
    ensures WithDefaults(WithDefaults(state, defaults), defaults) == WithDefaults(state, defaults)
  {
    WithDefaultsKeepsEntries(state, defaults);
    WithDefaultsWhenPresent(WithDefaults(state, defaults), defaults);
  }

  /** Every entry of the state survives initialisation unchanged, and every default key is present. */
  lemma {:induction false} WithDefaultsKeepsEntries<K, V>(state: map<K, V>, defaults: seq<(K, V)>)
    ensures forall k :: k in state ==> k in WithDefaults(state, defaults) && WithDefaults(state, defaults)[k] == state[k]
    ensures forall i :: 0 <= i < |defaults| ==> defaults[i].0 in WithDefaults(state, defaults)
    decreases |defaults|
  {
    if defaults != [] {
      var key := defaults[0].0;
      var next := if key in state then state else state[key := defaults[0].1];
      WithDefaultsKeepsEntries(next, defaults[1..]);
      forall i | 0 < i < |defaults| ensures defaults[i].0 in WithDefaults(state, defaults) {
        assert defaults[1..][i - 1] == defaults[i];
      }
    }
  }

  /** A state that already holds every default key is left as it is. */
  lemma {:induction false} WithDefaultsWhenPresent<K, V>(state: map<K, V>, defaults: seq<(K, V)>)
    requires forall i :: 0 <= i < |defaults| ==> defaults[i].0 in state
    ensures WithDefaults(state, defaults) == state
  {
    if defaults != [] {
      assert forall i :: 0 <= i < |defaults[1..]| ==> defaults[1..][i] == defaults[i + 1];
      WithDefaultsWhenPresent(state, defaults[1..]);
    }
  }

  /** The session-state initialisation loop: for each default, set it if its key is missing. */
  method InitSessionState<K, V>(state: map<K, V>, defaults: seq<(K, V)>) returns (r: map<K, V>)
    ensures r == WithDefaults(state, defaults)
    ensures forall k :: k in state ==> k in r && r[k] == state[k]
    ensures forall i :: 0 <= i < |defaults| ==> defaults[i].0 in r
    ensures DistinctKeys(defaults) ==> r.Keys == state.Keys + DefaultKeys(defaults)
    ensures DistinctKeys(defaults) ==>
      forall i :: 0 <= i < |defaults| && defaults[i].0 !in state ==> r[defaults[i].0] == defaults[i].1
  {
    r := state;
    var i := 0;
    while i < |defaults|
      invariant 0 <= i <= |defaults|
      invariant WithDefaults(r, defaults[i..]) == WithDefaults(state, defaults)
    {
      var (key, default) := defaults[i];
      assert defaults[i..][1..] == defaults[i + 1..];
      if key !in r {
        r := r[key := default];
      }
      i := i + 1;
    }
    assert defaults[i..] == [];
    WithDefaultsKeepsEntries(state, defaults);
    if DistinctKeys(defaults) {
      WithDefaultsAddsMissing(state, defaults);
    }
  }

  // ---------------------------------------------------------------------------------------
  // The two tables of the session
  // ---------------------------------------------------------------------------------------

  /** A saved document: its extracted text and the retrieval index built from it. */
  datatype DocEntry<Idx> = DocEntry(text: string, index: Idx)

  /** One exchange of a chat history: the question, the answer and the answer's sources. */
  datatype Turn<Ans, Src> = Turn(question: string, answer: Ans, sources: Src)

  /** The session's `docs`, `chat` and `last_doc`. */
  datatype Tables<Idx, Ans, Src> = Tables(
    docs: map<string, DocEntry<Idx>>,
    chat: map<string, seq<Turn<Ans, Src>>>,
    lastDoc: Option<string>)

  /** The invariant every handler keeps: a label has a chat history exactly when it has a document. */
  ghost predicate SameKeys<Idx, Ans, Src>(t: Tables<Idx, Ans, Src>)
  {
    t.docs.Keys == t.chat.Keys
  }

  /** The three session values an initialisation puts in when they are missing. */
  datatype Slot<Idx, Ans, Src> =
    | DocsSlot(docs: map<string, DocEntry<Idx>>)
    | ChatSlot(chat: map<string, seq<Turn<Ans, Src>>>)
    | LastDocSlot(lastDoc: Option<string>)

  /** The defaults of the front end: empty `docs`, empty `chat`, no `last_doc`. */
  function SessionDefaults<Idx, Ans, Src>(): seq<(string, Slot<Idx, Ans, Src>)>
  {
    [("docs", DocsSlot(map[])), ("chat", ChatSlot(map[])), ("last_doc", LastDocSlot(None))]
  }

  /** A new session gets exactly the three defaults beside whatever else it already held. */
  lemma FreshSession<Idx, Ans, Src>(state: map<string, Slot<Idx, Ans, Src>>)
    requires "docs" !in state && "chat" !in state && "last_doc" !in state
    ensures WithDefaults(state, SessionDefaults<Idx, Ans, Src>()) ==
      state["docs" := DocsSlot(map[])]["chat" := ChatSlot(map[])]["last_doc" := LastDocSlot(None)]
  {
  }

  /**
   Saving a PDF under a label: the document entry is set and its history emptied, replacing
   whatever was saved under that label before; every other label and `last_doc` stay.
   */
  function Saved<Idx, Ans, Src>(t: Tables<Idx, Ans, Src>, lbl: string, entry: DocEntry<Idx>)
    : (r: Tables<Idx, Ans, Src>)
    ensures r.docs.Keys == t.docs.Keys + {lbl} && r.chat.Keys == t.chat.Keys + {lbl}
    ensures r.docs[lbl] == entry && r.chat[lbl] == []
    ensures forall l :: l in t.docs && l != lbl ==> r.docs[l] == t.docs[l]
    ensures forall l :: l in t.chat && l != lbl ==> r.chat[l] == t.chat[l]
    ensures r.lastDoc == t.lastDoc
    ensures SameKeys(t) ==> SameKeys(r)
  {
    t.(docs := t.docs[lbl := entry], chat := t.chat[lbl := []])
  }

  /**
   Resetting the chat of a listed label: its history becomes empty and it becomes `last_doc`;
   the documents and every other history stay.
   */
  function ChatReset<Idx, Ans, Src>(t: Tables<Idx, Ans, Src>, lbl: string): (r: Tables<Idx, Ans, Src>)
    requires lbl in t.docs
    ensures r.docs == t.docs
    ensures r.chat.Keys == t.chat.Keys + {lbl} && r.chat[lbl] == []
    ensures forall l :: l in t.chat && l != lbl ==> r.chat[l] == t.chat[l]
    ensures r.lastDoc == Some(lbl)
    ensures SameKeys(t) ==> SameKeys(r)
  {
    t.(chat := t.chat[lbl := []], lastDoc := Some(lbl))
  }

  /**
   Deleting a listed label: it leaves both tables and `last_doc` becomes empty; every other
   label keeps its document and history.
   */
  function Deleted<Idx, Ans, Src>(t: Tables<Idx, Ans, Src>, lbl: string): (r: Tables<Idx, Ans, Src>)
    requires lbl in t.docs
    ensures r.docs.Keys == t.docs.Keys - {lbl} && r.chat.Keys == t.chat.Keys - {lbl}
    ensures forall l :: l in r.docs ==> r.docs[l] == t.docs[l]
    ensures forall l :: l in r.chat ==> r.chat[l] == t.chat[l]
    ensures r.lastDoc == None
    ensures SameKeys(t) ==> SameKeys(r)
  {
    Tables(t.docs - {lbl}, t.chat - {lbl}, None)
  }

  /** Choosing a listed label to chat with makes it `last_doc`; the tables stay. */
  function Selected<Idx, Ans, Src>(t: Tables<Idx, Ans, Src>, sel: string): (r: Tables<Idx, Ans, Src>)
    requires sel in t.docs
    ensures r.docs == t.docs && r.chat == t.chat
    ensures r.lastDoc == Some(sel)
  {
    t.(lastDoc := Some(sel))
  }

  /**
   Asking a non-empty question about the selected label appends exactly one turn to the end
   of its history and keeps the earlier turns; an empty question changes nothing. Every other
   history, the documents and `last_doc` stay.
   */
  function Asked<Idx, Ans, Src>(t: Tables<Idx, Ans, Src>, sel: string, turn: Turn<Ans, Src>)
    : (r: Tables<Idx, Ans, Src>)
    requires sel in t.chat
    ensures r.docs == t.docs && r.lastDoc == t.lastDoc && r.chat.Keys == t.chat.Keys
    ensures turn.question == "" ==> r == t
    ensures turn.question != "" ==>
      && |r.chat[sel]| == |t.chat[sel]| + 1
      && r.chat[sel][..|t.chat[sel]|] == t.chat[sel]
      && r.chat[sel][|t.chat[sel]|] == turn
    ensures forall l :: l in t.chat && l != sel ==> r.chat[l] == t.chat[l]
  {
    if turn.question == "" then t else t.(chat := t.chat[sel := t.chat[sel] + [turn]])
  }

  /** Saving twice under one label keeps only the second save, history included. */
  lemma SaveReplaces<Idx, Ans, Src>(
    t: Tables<Idx, Ans, Src>, lbl: string, first: DocEntry<Idx>, second: DocEntry<Idx>)
    ensures Saved(Saved(t, lbl, first), lbl, second) == Saved(t, lbl, second)
  {
  }

  /** Deleting a label just saved as new gives back the tables from before, with no `last_doc`. */
  lemma DeleteUndoesSave<Idx, Ans, Src>(t: Tables<Idx, Ans, Src>, lbl: string, entry: DocEntry<Idx>)
    requires lbl !in t.docs && lbl !in t.chat
    ensures Deleted(Saved(t, lbl, entry), lbl) == t.(lastDoc := None)
  {
  }

  /** What the session's handlers do, one rerun of the script at a time. */
  datatype Event<Idx, Ans, Src> =
    | SaveEvent(lbl: string, pages: seq<string>, index: Idx)
    | ResetEvent(lbl: string)
    | DeleteEvent(lbl: string)
    | SelectEvent(lbl: string)
    | AskEvent(lbl: string, turn: Turn<Ans, Src>)

  /**
   The effect of one handler. Reset, delete, select and ask are only offered for a label that
   has a document; for any other label the step is refused.
   */
  function Step<Idx, Ans, Src>(t: Tables<Idx, Ans, Src>, e: Event<Idx, Ans, Src>)
    : Option<Tables<Idx, Ans, Src>>
  {
    match e
    case SaveEvent(lbl, pages, index) => Some(Saved(t, lbl, DocEntry(ExtractText(pages), index)))
    case ResetEvent(lbl) => if lbl in t.docs then Some(ChatReset(t, lbl)) else None
    case DeleteEvent(lbl) => if lbl in t.docs then Some(Deleted(t, lbl)) else None
    case SelectEvent(lbl) => if lbl in t.docs then Some(Selected(t, lbl)) else None
    case AskEvent(lbl, turn) =>
      if lbl in t.docs && lbl in t.chat then Some(Asked(t, lbl, turn)) else None
  }

  /** The tables after a run of handlers, or `None` when one of them is refused. */
  function Run<Idx, Ans, Src>(t: Tables<Idx, Ans, Src>, events: seq<Event<Idx, Ans, Src>>)
    : Option<Tables<Idx, Ans, Src>>
    decreases |events|
  {
    if events == [] then Some(t)
    else
      match Step(t, events[0])
      case None => None
      case Some(t') => Run(t', events[1..])
  }

  /** On a session whose tables agree on their labels, every run of handlers keeps them agreeing. */
  lemma {:induction false} RunKeepsSameKeys<Idx, Ans, Src>(
    t: Tables<Idx, Ans, Src>, events: seq<Event<Idx, Ans, Src>>)
    requires SameKeys(t)
    ensures Run(t, events).Some? ==> SameKeys(Run(t, events).value)
    decreases |events|
  {
    if events != [] {
      match Step(t, events[0])
      case None =>
      case Some(t') =>
        RunKeepsSameKeys(t', events[1..]);
    }
  }

  /**
   In a session whose tables agree, a label with a document can always be selected and asked
   about: the label set invariant is what keeps `st.session_state.chat[selected]` (app.py:101,121)
   from raising `KeyError` for a label offered by the document selector.
   */
  lemma AskNeverRefused<Idx, Ans, Src>(t: Tables<Idx, Ans, Src>, lbl: string, turn: Turn<Ans, Src>)
    requires SameKeys(t) && lbl in t.docs
    ensures Step(t, AskEvent(lbl, turn)).Some?
    ensures Step(t, SelectEvent(lbl)).Some?
  {
  }

  /**
   The session state of the front end once initialised, with the handlers acting on it in place.
   */
  class Session<Idx, Ans, Src> {
    var docs: map<string, DocEntry<Idx>>
    var chat: map<string, seq<Turn<Ans, Src>>>
    var lastDoc: Option<string>

    /** The value of the three session entries. */
    function State(): Tables<Idx, Ans, Src>
      reads this
    {
      Tables(docs, chat, lastDoc)
    }

    /** The invariant of the session: `docs` and `chat` have the same labels. */
    ghost predicate Valid()
      reads this
    {
      SameKeys(State())
    }

    /** A freshly initialised session: no documents, no histories, no `last_doc`. */
    constructor ()
      ensures Valid()
      ensures docs == map[] && chat == map[] && lastDoc == None
    {
      docs, chat, lastDoc := map[], map[], None;
    }

    /** "Save PDF": index the uploaded PDF's text under `label`. */
    method Save(lbl: string, pages: seq<string>, index: Idx)
      requires Valid()
      modifies this
      ensures Valid()
      ensures State() == Saved(old(State()), lbl, DocEntry(ExtractText(pages), index))
    {
      var text := ExtractText(pages);
      docs := docs[lbl := DocEntry(text, index)];
      chat := chat[lbl := []];
    }

    /** "Preview": the preview of the text saved under a listed label. */
    method ShowPreview(lbl: string) returns (p: string)
      requires lbl in docs
      ensures p == Preview(docs[lbl].text)
    {
      p := Preview(docs[lbl].text);
    }

    /** "Reset Chat" on a listed label. */
    method ResetChat(lbl: string)
      requires Valid() && lbl in docs
      modifies this
      ensures Valid()
      ensures State() == ChatReset(old(State()), lbl)
    {
      chat := chat[lbl := []];
      lastDoc := Some(lbl);
    }

    /** "Delete" on a listed label. */
    method Delete(lbl: string)
      requires Valid() && lbl in docs
      modifies this
      ensures Valid()
      ensures State() == Deleted(old(State()), lbl)
    {
      docs := docs - {lbl};
      chat := chat - {lbl};
      lastDoc := None;
    }

    /** Choosing a listed label in the document selector. */
    method Select(sel: string)
      requires Valid() && sel in docs
      modifies this
      ensures Valid()
      ensures State() == Selected(old(State()), sel)
    {
      lastDoc := Some(sel);
    }

    /** Asking about the selected label: record the question with its answer and sources. */
    method Ask(sel: string, question: string, answer: Ans, sources: Src)
      requires Valid() && sel in docs
      modifies this
      ensures Valid()
      ensures State() == Asked(old(State()), sel, Turn(question, answer, sources))
    {
      if question != "" {
        chat := chat[sel := chat[sel] + [Turn(question, answer, sources)]];
      }
    }
  }

}
