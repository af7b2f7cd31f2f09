/** The MEI facts the labeller reads, as plain records already pulled out of
    the XML tree, and the shared lookups over them: the tie table, the first
    note carrying an id, a note's duration, and the label a note receives. */
module Score {
  import opened Common

  /** A note's `pname`, which MEI restricts to a-g. */
  datatype Letter = A | B | C | D | E | F | G

  /** `pname.upper()` */
  function LetterChar(l: Letter): (c: char)
    ensures 'A' <= c <= 'G'
    ensures c != ':'
  {
    match l
    case A => 'A'
    case B => 'B'
    case C => 'C'
    case D => 'D'
    case E => 'E'
    case F => 'F'
    case G => 'G'
  }

  /** The two accidental attributes of one element; `None` is an absent attribute. */
  datatype AccidAttrs = AccidAttrs(ges: Option<string>, vis: Option<string>)

  /** The enclosing `<chord>` of a note, reduced to its `dur` attribute. */
  datatype Chord = Chord(dur: Option<string>)

  /** One `<note>`: its `xml:id`, `pname`, `oct`, the `n` of its measure and of
      its staff, its `dur`, its enclosing chord if any, its own accidental
      attributes and those of its first `<accid>` descendant if it has one. */
  datatype Note = Note(
    id: string,
    letter: Letter,
    octave: Option<string>,
    measure: int,
    staff: string,
    dur: Option<string>,
    chord: Option<Chord>,
    attrs: AccidAttrs,
    accidChild: Option<AccidAttrs>)

  /** One `<tie>` with its raw `startid` and `endid` (usually `#`-prefixed). */
  datatype Tie = Tie(startId: string, endId: string)

  /** One `<keySig>`: either inside a `<staffDef>` (with the `n` of that staff
      and whether the staffDef holds a `<clef>`), or inside a `<scoreDef>`
      (with the `n` of the next measure in document order). */
  datatype KeyDecl =
    | StaffKeySig(staff: string, hasClef: bool, sig: Option<string>, mode: Option<string>)
    | ScoreKeySig(nextMeasure: int, sig: Option<string>, mode: Option<string>)

  /** One `<staffDef>` with its `n` and `keysig` attributes. */
  datatype StaffDef = StaffDef(staff: Option<string>, keysig: Option<string>)

  /** A score: key signatures, staff definitions, ties and notes, each in document order. */
  datatype Document = Document(
    keySigs: seq<KeyDecl>,
    staffDefs: seq<StaffDef>,
    ties: seq<Tie>,
    notes: seq<Note>)

  /** The label written onto a note: `{LETTER}{accid}:{dur}`. */
  datatype Label = Label(letter: Letter, accid: string, dur: string)

  function LabelPrefix(l: Label): string {
    [LetterChar(l.letter)] + l.accid
  }

  function LabelText(l: Label): string {
    LabelPrefix(l) + ":" + l.dur
  }

  /** Reading a label's text back up to the first colon gives its letter and
      accidental, however the duration is spelled. */
  lemma LabelPrefixRecovered(l: Label)
    requires ':' !in l.accid
    ensures BeforeColon(LabelText(l)) == LabelPrefix(l)
  {
    assert LabelText(l) == LabelPrefix(l) + (":" + l.dur);
    BeforeColonOfJoin(LabelPrefix(l), ":" + l.dur);
  }

  /** A label copying another's letter and accidental reads as the other's
      text up to the colon, then its own duration. */
  lemma CopiedLabelText(l: Label, start: Label)
    requires l.letter == start.letter && l.accid == start.accid && ':' !in start.accid
    ensures LabelText(l) == BeforeColon(LabelText(start)) + ":" + l.dur
  {
    LabelPrefixRecovered(start);
    assert LabelPrefix(l) == LabelPrefix(start);
  }

  // ---------------------------------------------------------------- ties

  /** The `ties` dict: end id to start id, both with '#' removed, later ties
      overwriting earlier ones with the same end. */
  function TieMap(ties: seq<Tie>): map<string, string> {
    if |ties| == 0 then map[]
    else
      var last := ties[|ties| - 1];
      TieMap(ties[..|ties| - 1])[RemoveHash(last.endId) := RemoveHash(last.startId)]
  }

  /** The map's keys are exactly the ties' end ids. */
  lemma {:induction false} TieMapKeys(ties: seq<Tie>)
    ensures forall e :: e in TieMap(ties) <==> exists k :: 0 <= k < |ties| && RemoveHash(ties[k].endId) == e
  {
    if |ties| > 0 {
      var init := ties[..|ties| - 1];
      TieMapKeys(init);
      assert forall k :: 0 <= k < |init| ==> init[k] == ties[k];
    }
  }

  /** When several ties share an end id, the last of them decides the start. */
  lemma {:induction false} TieLastWins(ties: seq<Tie>, k: nat)
    requires k < |ties|
    requires forall l :: k < l < |ties| ==> RemoveHash(ties[l].endId) != RemoveHash(ties[k].endId)
    ensures RemoveHash(ties[k].endId) in TieMap(ties)
    ensures TieMap(ties)[RemoveHash(ties[k].endId)] == RemoveHash(ties[k].startId)
  {
    if k < |ties| - 1 {
      var init := ties[..|ties| - 1];
      assert init[k] == ties[k];
      assert forall l :: k < l < |init| ==> init[l] == ties[l];
      TieLastWins(init, k);
    }
  }

  /** `ties.get(note_id)`, kept only when truthy (a non-empty start id). */
  function TieStart(tm: map<string, string>, id: string): (r: Option<string>)
    ensures r.Some? <==> id in tm && tm[id] != ""
    ensures r.Some? ==> r.value == tm[id]
  {
    if id in tm && tm[id] != "" then Some(tm[id]) else None
  }

  predicate IsTieContinuation(doc: Document, i: nat)
    requires i < |doc.notes|
  {
    TieStart(TieMap(doc.ties), doc.notes[i].id).Some?
  }

  /** `soup.find("note", attrs={"xml:id": id})`: the first note carrying the id. */
  function FirstNoteWithId(notes: seq<Note>, id: string): (r: Option<nat>)
    ensures r.Some? ==> r.value < |notes| && notes[r.value].id == id
    ensures r.Some? ==> forall k :: 0 <= k < r.value ==> notes[k].id != id
    ensures r.None? ==> forall k :: 0 <= k < |notes| ==> notes[k].id != id
  {
    if |notes| == 0 then None
    else if notes[0].id == id then Some(0)
    else match FirstNoteWithId(notes[1..], id)
      case None => None
      case Some(j) => Some(j + 1)
  }

  // ------------------------------------------------------------- durations

  /** `f"{dur}"` of an attribute value: an absent one prints as `None`. */
  function DurText(d: Option<string>): string {
    d.GetOr("None")
  }

  /** A note's own `dur`, else its enclosing chord's; a note with neither a
      `dur` nor a chord aborts. */
  function NoteDuration(note: Note): (r: Result<string>)
    ensures r.Err? <==> note.dur.None? && note.chord.None?
    ensures r.Err? ==> r.error == MissingChord
    ensures note.dur.Some? ==> r == Ok(note.dur.value)
    ensures note.dur.None? && note.chord.Some? ==> r == Ok(DurText(note.chord.value.dur))
  {
    if note.dur.Some? then Ok(note.dur.value)
    else if note.chord.None? then Err(MissingChord)
    else Ok(DurText(note.chord.value.dur))
  }
}
