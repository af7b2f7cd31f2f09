/** The older renderer (`app/renderer.py`). It collects and selects key
    signatures, discovers explicit accidentals and keeps the accidental memory
    exactly as the current one does, but it spells accidentals `#`/`b`,
    recognises only seven key-signature tokens (silently giving nothing for
    the rest), copies a tie start's whole label, duration included, and uses
    a label's prefix as the pitch without any reduction. */
module Legacy {
  import opened Common
  import opened Score
  import opened Accidentals
  import opened KeySignature
  import opened Glyph
  import Pitch

  // ----------------------------------------------------------------- tables

  /** `PITCH_COLORS` of the older renderer: the same colours, keyed by `#`/`b`
      spellings. */
  const LegacyColors: map<string, string> := map[
    "A" := "#fdbb13",
    "B" := "#A6CE39", "Cb" := "#A6CE39",
    "C" := "#DA1E48", "B#" := "#DA1E48",
    "D" := "#F58220",
    "E" := "#F3DC0B", "Fb" := "#F3DC0B",
    "F" := "#AB218E", "E#" := "#AB218E",
    "G" := "#F04E23",
    "G#" := "#0098DD", "Ab" := "#0098DD",
    "A#" := "#823F98", "Bb" := "#823F98",
    "C#" := "#00A995", "Db" := "#00A995",
    "D#" := "#3763AF", "Eb" := "#3763AF",
    "F#" := "#39B54A", "Gb" := "#39B54A"]

  /** `SQUARE_PITCHES` of the older renderer. */
  const LegacySquares: seq<string> := ["Ab", "G#", "Bb", "A#", "C", "B#", "D", "E", "Fb", "Gb", "F#"]

  /** The accidental strings the older renderer writes into labels. */
  predicate LegacyAccid(a: string) {
    a == "" || a == "#" || a == "b"
  }

  /** The accidental spelled the way the current renderer spells it. */
  function Respelled(a: string): (r: string)
    ensures a == "#" ==> r == "s"
    ensures a == "b" ==> r == "f"
    ensures a != "#" && a != "b" ==> r == a
  {
    if a == "#" then "s" else if a == "b" then "f" else a
  }

  // -------------------------------------------------------------- key table

  /** The tokens the older table recognises. */
  predicate LegacyToken(sig: string) {
    sig == "0" || sig == "1s" || sig == "2s" || sig == "3s" || sig == "4s" || sig == "1f" || sig == "4f"
  }

  /** The older key table: seven tokens, each as the circle of fifths has it;
      any other value, absent or not, gives nothing and raises nothing. */
  function LegacyKeyAccidental(sig: Option<string>, letter: Letter): (r: string)
    ensures LegacyAccid(r)
    ensures sig.None? || !LegacyToken(sig.value) ==> r == ""
  {
    if sig == Some("0") then ""
    else if sig == Some("1s") && letter == F then "#"
    else if sig == Some("2s") && (letter == C || letter == F) then "#"
    else if sig == Some("3s") && (letter == C || letter == F || letter == G) then "#"
    else if sig == Some("4s") && (letter == C || letter == D || letter == F || letter == G) then "#"
    else if sig == Some("1f") && letter == B then "b"
    else if sig == Some("4f") && (letter == A || letter == B || letter == D || letter == E) then "b"
    else ""
  }

  /** On the tokens it recognises, the older table gives what the current one
      gives, spelled `#`/`b`: so it, too, follows the circle of fifths. */
  lemma LegacyTableAgrees(sig: string, letter: Letter)
    requires LegacyToken(sig)
    ensures Respelled(LegacyKeyAccidental(Some(sig), letter)) == KeyAccidental(Some(sig), letter)
  {
  }

  /** Two flats, which the current table reads as B flat and E flat, give
      nothing here. */
  lemma LegacyIgnoresTwoFlats()
    ensures LegacyKeyAccidental(Some("2f"), B) == ""
    ensures KeyAccidental(Some("2f"), B) == "f"
  {
  }

  // ------------------------------------------------------------ resolution

  /** The accidental a plain note is written with: an explicit or recalled
      `s` is `#`, `f` is `b`, `n` is nothing; every other value, double
      sharps and flats included, falls to the key table, which needs `sig`
      to have been assigned. */
  function LegacyResolve(val: string, sig: SigVar, letter: Letter): (r: Result<string>)
    ensures r.Ok? ==> LegacyAccid(r.value)
    ensures val == "s" ==> r == Ok("#")
    ensures val == "f" ==> r == Ok("b")
    ensures val == "n" ==> r == Ok("")
    ensures r.Err? <==> val != "s" && val != "f" && val != "n" && sig.Unbound?
    ensures r.Err? ==> r.error == UnboundSignature
  {
    if val == "s" then Ok("#")
    else if val == "f" then Ok("b")
    else if val == "n" then Ok("")
    else match sig
      case Unbound => Err(UnboundSignature)
      case Bound(s) => Ok(LegacyKeyAccidental(s, letter))
  }

  /** A double sharp is not passed through: with a signature of no
      accidentals it is written as nothing. */
  lemma LegacyDropsDoubleSharp()
    ensures LegacyResolve("ss", Bound(Some("0")), C) == Ok("")
  {
  }

  // ------------------------------------------------------------------ fold

  /** What the fold carries from note to note. A label is `None` where a tie
      continuation copied the absent label of a start not yet labelled. */
  datatype LegacyState = LegacyState(memory: Memory, sig: SigVar, labels: seq<Option<Label>>)

  predicate LegacyWellFormed(labels: seq<Option<Label>>) {
    forall j :: 0 <= j < |labels| && labels[j].Some? ==> LegacyAccid(labels[j].value.accid)
  }

  /** A tie continuation takes whatever the start note carries: its whole
      label when it comes earlier, nothing otherwise. */
  function LegacyTieStep(doc: Document, i: nat, st: LegacyState, startId: string): (r: Result<LegacyState>)
    requires i < |doc.notes| && |st.labels| == i
    ensures r.Ok? ==> |r.value.labels| == i + 1 && r.value.labels[..i] == st.labels
    ensures r.Ok? ==> r.value.memory == st.memory && r.value.sig == st.sig
    ensures r.Err? <==> FirstNoteWithId(doc.notes, startId).None?
  {
    match FirstNoteWithId(doc.notes, startId)
    case None => Err(TieStartMissing)
    case Some(j) => Ok(st.(labels := st.labels + [if j < i then st.labels[j] else None]))
  }

  /** Any other note: pick the key signature, find the explicit accidental,
      update or consult the memory, resolve, and only then read the duration. */
  function LegacyPlainStep(doc: Document, t: KeyTables, i: nat, st: LegacyState): (r: Result<LegacyState>)
    requires i < |doc.notes| && |st.labels| == i && DistinctKeys(t.perMeasure)
    ensures r.Ok? ==> |r.value.labels| == i + 1 && r.value.labels[..i] == st.labels
    ensures r.Ok? ==> r.value.labels[i].Some? && r.value.labels[i].value.letter == doc.notes[i].letter
    ensures r.Ok? ==> LegacyAccid(r.value.labels[i].value.accid)
  {
    var note := doc.notes[i];
    var selected :- SelectKeySignature(t, note.measure, note.staff);
    var sig := if selected.Some? then Bound(selected.value) else st.sig;
    var (name, val) := PickAccid(note);
    if note.octave.None? then Err(MissingOctave)
    else
      var key := MemKey(note.measure, note.letter, note.octave.value);
      var (memory, recalled) := Remember(st.memory, key, name, val);
      var accid :- LegacyResolve(recalled, sig, note.letter);
      var dur :- NoteDuration(note);
      Ok(LegacyState(memory, sig, st.labels + [Some(Label(note.letter, accid, dur))]))
  }

  function LegacyStep(doc: Document, t: KeyTables, i: nat, st: LegacyState): (r: Result<LegacyState>)
    requires i < |doc.notes| && |st.labels| == i && DistinctKeys(t.perMeasure)
    ensures r.Ok? ==> |r.value.labels| == i + 1 && r.value.labels[..i] == st.labels
  {
    match TieStart(TieMap(doc.ties), doc.notes[i].id)
    case Some(startId) => LegacyTieStep(doc, i, st, startId)
    case None => LegacyPlainStep(doc, t, i, st)
  }

  /** The state after the first `n` notes. */
  function LegacyUpTo(doc: Document, t: KeyTables, n: nat): (r: Result<LegacyState>)
    requires n <= |doc.notes| && DistinctKeys(t.perMeasure)
    ensures r.Ok? ==> |r.value.labels| == n
  {
    if n == 0 then Ok(LegacyState(map[], t.sig, []))
    else
      var st :- LegacyUpTo(doc, t, n - 1);
      LegacyStep(doc, t, n - 1, st)
  }

  /** The older `label_notes`: one label (or none) per note, in document order. */
  function LegacyLabelNotes(doc: Document): (r: Result<seq<Option<Label>>>)
    ensures r.Ok? ==> |r.value| == |doc.notes| && LegacyWellFormed(r.value)
  {
    var t :- BuildKeyTables(doc);
    var st :- LegacyUpTo(doc, t, |doc.notes|);
    LegacyUpToWellFormed(doc, t, |doc.notes|);
    Ok(st.labels)
  }

  // --------------------------------------------------------- fold lemmas

  /** The state after `n` notes is one step past the state after `n - 1`. */
  lemma LegacyUpToUnfold(doc: Document, t: KeyTables, n: nat)
    requires 0 < n <= |doc.notes| && DistinctKeys(t.perMeasure)
    requires LegacyUpTo(doc, t, n).Ok?
    ensures LegacyUpTo(doc, t, n - 1).Ok?
    ensures LegacyStep(doc, t, n - 1, LegacyUpTo(doc, t, n - 1).value) == LegacyUpTo(doc, t, n)
  {
  }

  /** One step keeps the earlier labels and adds one. */
  lemma LegacyUpToLabels(doc: Document, t: KeyTables, n: nat)
    requires 0 < n <= |doc.notes| && DistinctKeys(t.perMeasure)
    requires LegacyUpTo(doc, t, n).Ok?
    ensures LegacyUpTo(doc, t, n - 1).Ok?
    ensures LegacyUpTo(doc, t, n).value.labels[..n - 1] == LegacyUpTo(doc, t, n - 1).value.labels
  {
    LegacyUpToUnfold(doc, t, n);
  }

  /** After well-formed labels, the label one step adds is absent or carries
      one of the three accidentals: it is written afresh or copied from an
      earlier label. */
  lemma LegacyUpToLast(doc: Document, t: KeyTables, n: nat)
    requires 0 < n <= |doc.notes| && DistinctKeys(t.perMeasure)
    requires LegacyUpTo(doc, t, n).Ok?
    requires LegacyUpTo(doc, t, n - 1).Ok? && LegacyWellFormed(LegacyUpTo(doc, t, n - 1).value.labels)
    ensures var l := LegacyUpTo(doc, t, n).value.labels[n - 1];
      l.Some? ==> LegacyAccid(l.value.accid)
  {
    LegacyUpToUnfold(doc, t, n);
    var st := LegacyUpTo(doc, t, n - 1).value;
    match TieStart(TieMap(doc.ties), doc.notes[n - 1].id)
    case Some(startId) =>
      assert LegacyTieStep(doc, n - 1, st, startId) == LegacyUpTo(doc, t, n);
    case None =>
  }

  /** One step updates the memory as the reference definition does. */
  lemma LegacyUpToMemory(doc: Document, t: KeyTables, n: nat)
    requires 0 < n <= |doc.notes| && DistinctKeys(t.perMeasure)
    requires LegacyUpTo(doc, t, n).Ok?
    ensures LegacyUpTo(doc, t, n - 1).Ok?
    ensures LegacyUpTo(doc, t, n).value.memory == NextMemory(doc, n - 1, LegacyUpTo(doc, t, n - 1).value.memory)
  {
    if IsTieContinuation(doc, n - 1) {
      LegacyUpToUnfold(doc, t, n);
    } else {
      LegacyUpToPlain(doc, t, n);
      LegacyPlainStepMemory(doc, t, n - 1, LegacyUpTo(doc, t, n - 1).value);
    }
  }

  /** The step at any other note is a plain step. */
  lemma LegacyUpToPlain(doc: Document, t: KeyTables, n: nat)
    requires 0 < n <= |doc.notes| && DistinctKeys(t.perMeasure)
    requires LegacyUpTo(doc, t, n).Ok? && !IsTieContinuation(doc, n - 1)
    ensures LegacyUpTo(doc, t, n - 1).Ok?
    ensures LegacyPlainStep(doc, t, n - 1, LegacyUpTo(doc, t, n - 1).value) == LegacyUpTo(doc, t, n)
  {
    LegacyUpToUnfold(doc, t, n);
  }

  /** A plain step assigns `sig` exactly when it picks a signature. */
  lemma LegacyPlainStepSig(doc: Document, t: KeyTables, i: nat, st: LegacyState)
    requires i < |doc.notes| && |st.labels| == i && DistinctKeys(t.perMeasure)
    requires !IsTieContinuation(doc, i) && LegacyPlainStep(doc, t, i, st).Ok?
    ensures LegacyPlainStep(doc, t, i, st).value.sig ==
      if SetsSig(doc, t, i) then Bound(SelectKeySignature(t, doc.notes[i].measure, doc.notes[i].staff).value.value)
      else st.sig
  {
  }

  /** The `sig` the older fold holds after `n` notes is the reference one. */
  lemma {:induction false} LegacyUpToSig(doc: Document, t: KeyTables, n: nat)
    requires n <= |doc.notes| && DistinctKeys(t.perMeasure)
    requires LegacyUpTo(doc, t, n).Ok?
    ensures LegacyUpTo(doc, t, n).value.sig == HeldSig(doc, t, n)
  {
    if n > 0 {
      LegacyUpToUnfold(doc, t, n);
      LegacyUpToSig(doc, t, n - 1);
      if !IsTieContinuation(doc, n - 1) {
        LegacyUpToPlain(doc, t, n);
        LegacyPlainStepSig(doc, t, n - 1, LegacyUpTo(doc, t, n - 1).value);
      }
    }
  }

  /** Every label the fold writes carries one of the three accidentals. */
  lemma {:induction false} LegacyUpToWellFormed(doc: Document, t: KeyTables, n: nat)
    requires n <= |doc.notes| && DistinctKeys(t.perMeasure)
    requires LegacyUpTo(doc, t, n).Ok?
    ensures LegacyWellFormed(LegacyUpTo(doc, t, n).value.labels)
  {
    if n > 0 {
      LegacyUpToLabels(doc, t, n);
      LegacyUpToWellFormed(doc, t, n - 1);
      LegacyUpToLast(doc, t, n);
      WellFormedExtend(LegacyUpTo(doc, t, n - 1).value.labels, LegacyUpTo(doc, t, n).value.labels);
    }
  }

  lemma WellFormedExtend(prev: seq<Option<Label>>, ls: seq<Option<Label>>)
    requires |ls| == |prev| + 1 && ls[..|prev|] == prev && LegacyWellFormed(prev)
    requires ls[|prev|].Some? ==> LegacyAccid(ls[|prev|].value.accid)
    ensures LegacyWellFormed(ls)
  {
    forall j | 0 <= j < |prev| && ls[j].Some?
      ensures LegacyAccid(ls[j].value.accid)
    {
      assert ls[j] == prev[j];
    }
  }

  /** Later notes never change an earlier label. */
  lemma {:induction false} LegacyUpToPrefix(doc: Document, t: KeyTables, m: nat, n: nat)
    requires m <= n <= |doc.notes| && DistinctKeys(t.perMeasure)
    requires LegacyUpTo(doc, t, n).Ok?
    ensures LegacyUpTo(doc, t, m).Ok?
    ensures LegacyUpTo(doc, t, m).value.labels == LegacyUpTo(doc, t, n).value.labels[..m]
    decreases n - m
  {
    if m < n {
      LegacyUpToLabels(doc, t, n);
      LegacyUpToPrefix(doc, t, m, n - 1);
      TakeOfTake(LegacyUpTo(doc, t, n).value.labels, n - 1, m);
    }
  }

  /** A label, once written, is the final one. */
  lemma LegacyLabelAt(doc: Document, t: KeyTables, j: nat, m: nat)
    requires j < m <= |doc.notes| && DistinctKeys(t.perMeasure)
    requires LegacyUpTo(doc, t, |doc.notes|).Ok?
    ensures LegacyUpTo(doc, t, m).Ok?
    ensures LegacyUpTo(doc, t, m).value.labels[j] == LegacyUpTo(doc, t, |doc.notes|).value.labels[j]
  {
    LegacyUpToPrefix(doc, t, m, |doc.notes|);
    var fin := LegacyUpTo(doc, t, |doc.notes|).value.labels;
    var mid := LegacyUpTo(doc, t, m).value.labels;
    TakeIndex(fin, m, j);
    assert mid == fin[..m];
    assert mid[j] == fin[..m][j];
  }

  /** The older memory obeys the same reference definition as the current one. */
  lemma LegacyMemoryIsLastVisible(doc: Document, t: KeyTables, n: nat)
    requires n <= |doc.notes| && DistinctKeys(t.perMeasure)
    requires LegacyUpTo(doc, t, n).Ok?
    ensures forall key :: Lookup(LegacyUpTo(doc, t, n).value.memory, key) == LastVisible(doc, n, key)
  {
    LegacyUpToMemoryIs(doc, t, n);
    MemoryUpToTracks(doc, n);
  }

  /** The fold's memory is the one `NextMemory` builds. */
  lemma {:induction false} LegacyUpToMemoryIs(doc: Document, t: KeyTables, n: nat)
    requires n <= |doc.notes| && DistinctKeys(t.perMeasure)
    requires LegacyUpTo(doc, t, n).Ok?
    ensures LegacyUpTo(doc, t, n).value.memory == MemoryUpTo(doc, n)
  {
    if n > 0 {
      LegacyUpToMemory(doc, t, n);
      LegacyUpToMemoryIs(doc, t, n - 1);
    }
  }

  /** A plain step updates the memory as the reference definition does. */
  lemma LegacyPlainStepMemory(doc: Document, t: KeyTables, i: nat, st: LegacyState)
    requires i < |doc.notes| && |st.labels| == i && DistinctKeys(t.perMeasure)
    requires !IsTieContinuation(doc, i) && LegacyPlainStep(doc, t, i, st).Ok?
    ensures LegacyPlainStep(doc, t, i, st).value.memory == NextMemory(doc, i, st.memory)
  {
  }

  /** A tie continuation carries exactly what its start carried: the start's
      whole label, its duration included, when the start comes earlier, and
      no label when it does not. */
  lemma LegacyTieCopiesLabel(doc: Document, ls: seq<Option<Label>>, i: nat)
    requires LegacyLabelNotes(doc) == Ok(ls) && i < |doc.notes| && IsTieContinuation(doc, i)
    ensures var j := FirstNoteWithId(doc.notes, TieStart(TieMap(doc.ties), doc.notes[i].id).value);
      && j.Some?
      && ls[i] == (if j.value < i then ls[j.value] else None)
  {
    var t := BuildKeyTables(doc).value;
    LegacyLabelAt(doc, t, i, i + 1);
    LegacyUpToTie(doc, t, i);
    var j := FirstNoteWithId(doc.notes, TieStart(TieMap(doc.ties), doc.notes[i].id).value).value;
    if j < i {
      LegacyLabelAt(doc, t, j, i);
    }
  }

  /** The step at a tie continuation copies the start's label as it stood. */
  lemma LegacyUpToTie(doc: Document, t: KeyTables, i: nat)
    requires i < |doc.notes| && DistinctKeys(t.perMeasure) && IsTieContinuation(doc, i)
    requires LegacyUpTo(doc, t, i + 1).Ok?
    ensures LegacyUpTo(doc, t, i).Ok?
    ensures var j := FirstNoteWithId(doc.notes, TieStart(TieMap(doc.ties), doc.notes[i].id).value);
      && j.Some?
      && LegacyUpTo(doc, t, i + 1).value.labels[i]
         == if j.value < i then LegacyUpTo(doc, t, i).value.labels[j.value] else None
  {
    LegacyUpToUnfold(doc, t, i + 1);
    var st := LegacyUpTo(doc, t, i).value;
    var startId := TieStart(TieMap(doc.ties), doc.notes[i].id).value;
    assert LegacyTieStep(doc, i, st, startId) == LegacyUpTo(doc, t, i + 1);
  }

  /** The accidental priority of the older renderer for plain note `i` whose
      fold state held `sig` before it. */
  predicate LegacyAccidFollowsPriority(doc: Document, t: KeyTables, i: nat, sig: SigVar, accid: string)
    requires i < |doc.notes| && doc.notes[i].octave.Some? && DistinctKeys(t.perMeasure)
  {
    var v := EffectiveAccid(doc, i);
    && (v == "s" ==> accid == "#")
    && (v == "f" ==> accid == "b")
    && (v == "n" ==> accid == "")
    && (v != "s" && v != "f" && v != "n" ==>
          var note := doc.notes[i];
          var sel := SelectKeySignature(t, note.measure, note.staff);
          && sel.Ok?
          && (sel.value.Some? ==> accid == LegacyKeyAccidental(sel.value.value, note.letter))
          && (sel.value.None? ==> sig.Bound? && accid == LegacyKeyAccidental(sig.value, note.letter)))
  }

  lemma LegacyPlainStepLabel(doc: Document, t: KeyTables, i: nat, st: LegacyState)
    requires i < |doc.notes| && |st.labels| == i && DistinctKeys(t.perMeasure)
    requires LegacyPlainStep(doc, t, i, st).Ok?
    requires forall key :: Lookup(st.memory, key) == LastVisible(doc, i, key)
    ensures doc.notes[i].octave.Some? && NoteDuration(doc.notes[i]).Ok?
    ensures var l := LegacyPlainStep(doc, t, i, st).value.labels[i];
      && l == Some(Label(doc.notes[i].letter, l.value.accid, NoteDuration(doc.notes[i]).value))
      && LegacyAccidFollowsPriority(doc, t, i, st.sig, l.value.accid)
  {
    var note := doc.notes[i];
    var key := MemKey(note.measure, note.letter, note.octave.value);
    assert Lookup(st.memory, key) == LastVisible(doc, i, key);
  }

  /** Every other note is labelled with its own letter and its own duration
      (or its chord's), and its accidental follows the older priority with
      the signature `sig` holds before it (`HeldSig`): it is what
      `LegacyResolve` gives for its effective value and signature. */
  lemma LegacyPlainNoteLabel(doc: Document, t: KeyTables, ls: seq<Option<Label>>, i: nat)
    requires BuildKeyTables(doc) == Ok(t) && LegacyLabelNotes(doc) == Ok(ls)
    requires i < |doc.notes| && !IsTieContinuation(doc, i)
    ensures ls[i].Some? && ls[i].value.letter == doc.notes[i].letter
    ensures NoteDuration(doc.notes[i]) == Ok(ls[i].value.dur)
    ensures doc.notes[i].octave.Some? && SelectKeySignature(t, doc.notes[i].measure, doc.notes[i].staff).Ok?
    ensures LegacyAccidFollowsPriority(doc, t, i, HeldSig(doc, t, i), ls[i].value.accid)
    ensures LegacyResolve(EffectiveAccid(doc, i), SigAt(doc, t, i), doc.notes[i].letter) == Ok(ls[i].value.accid)
  {
    LegacyLabelAt(doc, t, i, i + 1);
    LegacyUpToUnfold(doc, t, i + 1);
    var st := LegacyUpTo(doc, t, i).value;
    var st' := LegacyUpTo(doc, t, i + 1).value;
    assert LegacyPlainStep(doc, t, i, st) == Ok(st');
    LegacyMemoryIsLastVisible(doc, t, i);
    LegacyUpToSig(doc, t, i);
    LegacyPlainStepLabel(doc, t, i, st);
  }

  // ------------------------------------------------------------- rendering

  /** The older `render_note_to_colormusic`: the label's prefix is the pitch
      as it stands. `LegacyRenderOutcome` and `LegacyHrefDefined` state which
      inputs abort it and that a square pitch's href names a generated
      symbol. */
  function LegacyRenderNote(title: string, notehead: Option<NoteheadGroup>, own: Option<Stem>, chord: Option<ChordGlyph>): (r: Result<GlyphPatch>)
    ensures SplitOnColon(title).None? ==> r == Err(MalformedLabel)
    ensures r.Ok? ==> notehead.Some?
    ensures r.Ok? && r.value.Repaint? ==> var p := SplitOnColon(title).value.0;
      p in LegacyColors && r.value == Repaint(LegacyColors[p], "Black", "20")
  {
    match SplitOnColon(title)
    case None => Err(MalformedLabel)
    case Some((pitch, dur)) =>
      var dir := StemDirection(own, chord);
      if pitch in LegacySquares then
        if notehead.None? then Err(MissingNotehead)
        else if !notehead.value.hasUse then Err(MissingUse)
        else Ok(Resymbol("#" + SymbolId(pitch, NoteheadStyle(dur), dir)))
      else if pitch !in LegacyColors then Err(UnknownColour)
      else if notehead.None? then Err(MissingNotehead)
      else
        StrokeWidthText();
        Ok(Repaint(LegacyColors[pitch], "Black", NatText(StrokeWidth)))
  }

  /** The rendering aborts only for a malformed title, a missing notehead or
      `<use>`, or a circle pitch missing from the colour table; the last
      happens exactly for a pitch in neither table. */
  lemma LegacyRenderOutcome(title: string, notehead: Option<NoteheadGroup>, own: Option<Stem>, chord: Option<ChordGlyph>)
    ensures var r := LegacyRenderNote(title, notehead, own, chord);
      r.Err? ==> r.error == MalformedLabel || r.error == UnknownColour || r.error == MissingNotehead || r.error == MissingUse
    ensures LegacyRenderNote(title, notehead, own, chord) == Err(UnknownColour) <==>
      SplitOnColon(title).Some? && SplitOnColon(title).value.0 !in LegacySquares && SplitOnColon(title).value.0 !in LegacyColors
  {
  }

  /** A square pitch's href names one of the symbols generated for the
      older table. */
  lemma LegacyHrefDefined(title: string, notehead: Option<NoteheadGroup>, own: Option<Stem>, chord: Option<ChordGlyph>)
    requires LegacyRenderNote(title, notehead, own, chord).Ok?
    requires LegacyRenderNote(title, notehead, own, chord).value.Resymbol?
    ensures var href := LegacyRenderNote(title, notehead, own, chord).value.href;
      |href| > 0 && href[0] == '#' && href[1..] in SymbolIds(LegacySquares)
  {
    var (pitch, dur) := SplitOnColon(title).value;
    var dir := StemDirection(own, chord);
    LegacySymbolDefined(pitch, NoteheadStyle(dur), dir);
    var href := "#" + SymbolId(pitch, NoteheadStyle(dur), dir);
    assert href[1..] == SymbolId(pitch, NoteheadStyle(dur), dir);
  }

  lemma LegacySymbolDefined(pitch: string, style: Style, dir: Direction)
    requires pitch in LegacySquares
    ensures SymbolId(pitch, style, dir) in SymbolIds(LegacySquares)
  {
    var i :| 0 <= i < |LegacySquares| && LegacySquares[i] == pitch;
    SymbolIdsCover(LegacySquares, i, style, dir);
  }

  /** Every prefix the older labelling writes (a letter, then nothing, `#` or
      `b`) is a key of its colour table, and it is coloured and shaped the way
      the current renderer colours and shapes the same spelling in `s`/`f`. */
  lemma LegacySpellingAgrees(x: Letter, a: string)
    requires LegacyAccid(a)
    ensures [LetterChar(x)] + a in LegacyColors
    ensures [LetterChar(x)] + Respelled(a) in Pitch.PitchColors
    ensures LegacyColors[[LetterChar(x)] + a] == Pitch.PitchColors[[LetterChar(x)] + Respelled(a)]
    ensures [LetterChar(x)] + a in LegacySquares <==> [LetterChar(x)] + Respelled(a) in Pitch.SquarePitches
  {
    var c := LetterChar(x);
    PrefixDisplay(c, a);
    LegacyShapesAgree(x);
    if a == "" {
      NaturalKeys(x);
      NaturalColours(x);
    } else if a == "#" {
      SharpColours(x);
    } else {
      FlatColours(x);
    }
  }

  lemma PrefixDisplay(c: char, a: string)
    requires LegacyAccid(a)
    ensures a == "" ==> [c] + a == [c] && [c] + Respelled(a) == [c]
    ensures a == "#" ==> [c] + a == [c, '#'] && [c] + Respelled(a) == [c, 's']
    ensures a == "b" ==> [c] + a == [c, 'b'] && [c] + Respelled(a) == [c, 'f']
  {
  }

  /** A natural is a key of both tables. */
  lemma NaturalKeys(x: Letter)
    ensures [LetterChar(x)] in LegacyColors && [LetterChar(x)] in Pitch.PitchColors
  {
    match x
    case A => case B => case C => case D => case E => case F => case G =>
  }

  /** A natural is coloured alike in both tables. */
  lemma NaturalColours(x: Letter)
    requires [LetterChar(x)] in LegacyColors && [LetterChar(x)] in Pitch.PitchColors
    ensures LegacyColors[[LetterChar(x)]] == Pitch.PitchColors[[LetterChar(x)]]
  {
    match x
    case A => case B => case C => case D => case E => case F => case G =>
  }

  /** `#` and `s` spellings are coloured alike. */
  lemma SharpColours(x: Letter)
    ensures [LetterChar(x), '#'] in LegacyColors && [LetterChar(x), 's'] in Pitch.PitchColors
    ensures LegacyColors[[LetterChar(x), '#']] == Pitch.PitchColors[[LetterChar(x), 's']]
  {
    match x
    case A => case B => case C => case D => case E => case F => case G =>
  }

  /** `b` and `f` spellings are coloured alike. */
  lemma FlatColours(x: Letter)
    ensures [LetterChar(x), 'b'] in LegacyColors && [LetterChar(x), 'f'] in Pitch.PitchColors
    ensures LegacyColors[[LetterChar(x), 'b']] == Pitch.PitchColors[[LetterChar(x), 'f']]
  {
    match x
    case A => case B => case C => case D => case E => case F => case G =>
  }

  /** The square spellings of both renderers are the same spellings. */
  lemma LegacyShapesAgree(x: Letter)
    ensures [LetterChar(x)] in LegacySquares <==> [LetterChar(x)] in Pitch.SquarePitches
    ensures [LetterChar(x), '#'] in LegacySquares <==> [LetterChar(x), 's'] in Pitch.SquarePitches
    ensures [LetterChar(x), 'b'] in LegacySquares <==> [LetterChar(x), 'f'] in Pitch.SquarePitches
  {
    match x
    case A => case B => case C => case D => case E => case F => case G =>
  }

  /** A label the older labelling writes, read back from its title, always
      renders, exactly as its prefix dictates. */
  lemma LegacyLabelRenders(l: Label, notehead: NoteheadGroup, own: Option<Stem>, chord: Option<ChordGlyph>)
    requires LegacyAccid(l.accid) && ':' !in l.dur && notehead.hasUse
    ensures var r, p := LegacyRenderNote(LabelText(l), Some(notehead), own, chord), LabelPrefix(l);
      && r.Ok?
      && (p in LegacySquares ==> r.value == Resymbol("#" + SymbolId(p, NoteheadStyle(l.dur), StemDirection(own, chord))))
      && p in LegacyColors
      && (p !in LegacySquares ==> r.value == Repaint(LegacyColors[p], "Black", "20"))
  {
    var p := LabelPrefix(l);
    assert ':' !in p by {
      assert p == [LetterChar(l.letter)] + l.accid;
    }
    SplitOnColonJoin(p, l.dur);
    LegacySpellingAgrees(l.letter, l.accid);
    StrokeWidthText();
  }
}
