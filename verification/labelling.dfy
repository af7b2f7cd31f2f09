/** `label_notes` of the current renderer (render-service): a left fold over
    the notes in document order that threads the accidental memory and the
    `sig` variable, and writes `{LETTER}{accid}:{dur}` onto every note. */
module Labelling {
  import opened Common
  import opened Score
  import opened Accidentals
  import opened KeySignature

  /** Explicit values written through verbatim. */
  predicate PassThrough(val: string) {
    val == "s" || val == "ss" || val == "f" || val == "ff"
  }

  /** The accidental strings this renderer writes into labels. */
  predicate ModernAccid(a: string) {
    a == "" || a == "s" || a == "ss" || a == "f" || a == "ff"
  }

  /** The accidental a note is written with: sharps and flats (single or
      double) pass through, a natural gives nothing, anything else falls back
      to the key signature, which must then be assigned and, when truthy,
      one of the accepted tokens. */
  function ResolveAccid(val: string, sig: SigVar, letter: Letter): (r: Result<string>)
    ensures r.Ok? ==> ModernAccid(r.value)
    ensures r.Err? <==> !PassThrough(val) && val != "n" && (sig.Unbound? || (Truthy(sig.value) && !IsToken(sig.value.value)))
    ensures r.Err? && sig.Unbound? ==> r.error == UnboundSignature
    ensures r.Err? && sig.Bound? ==> r.error == UnhandledKeySignature(sig.value.value)
  {
    if PassThrough(val) then Ok(val)
    else if val == "n" then Ok("")
    else match sig
      case Unbound => Err(UnboundSignature)
      case Bound(s) =>
        if Truthy(s) && !IsToken(s.value) then Err(UnhandledKeySignature(s.value))
        else Ok(KeyAccidental(s, letter))
  }

  /** What the fold carries from note to note. */
  datatype LabelState = LabelState(memory: Memory, sig: SigVar, labels: seq<Label>)

  predicate WellFormed(labels: seq<Label>) {
    forall j :: 0 <= j < |labels| ==> ModernAccid(labels[j].accid)
  }

  /** A tie continuation: the start's letter and accidental with the
      continuation's own duration. The start must be an earlier note, the
      only kind already carrying a label. */
  function TieStep(doc: Document, i: nat, st: LabelState, startId: string, dur: string): (r: Result<LabelState>)
    requires i < |doc.notes| && |st.labels| == i
    ensures r.Ok? ==> |r.value.labels| == i + 1 && r.value.labels[..i] == st.labels
    ensures r.Ok? ==> r.value.memory == st.memory && r.value.sig == st.sig
  {
    match FirstNoteWithId(doc.notes, startId)
    case None => Err(TieStartMissing)
    case Some(j) =>
      if j >= i then Err(TieStartUnlabelled)
      else Ok(st.(labels := st.labels + [Label(st.labels[j].letter, st.labels[j].accid, dur)]))
  }

  /** Any other note: pick the key signature, find the explicit accidental,
      update or consult the memory, resolve. */
  function PlainStep(doc: Document, t: KeyTables, i: nat, st: LabelState, dur: string): (r: Result<LabelState>)
    requires i < |doc.notes| && |st.labels| == i && DistinctKeys(t.perMeasure)
    ensures r.Ok? ==> |r.value.labels| == i + 1 && r.value.labels[..i] == st.labels
    ensures r.Ok? ==> ModernAccid(r.value.labels[i].accid) && r.value.labels[i].letter == doc.notes[i].letter
  {
    var note := doc.notes[i];
    var selected :- SelectKeySignature(t, note.measure, note.staff);
    var sig := if selected.Some? then Bound(selected.value) else st.sig;
    var (name, val) := PickAccid(note);
    if note.octave.None? then Err(MissingOctave)
    else
      var key := MemKey(note.measure, note.letter, note.octave.value);
      var (memory, recalled) := Remember(st.memory, key, name, val);
      var accid :- ResolveAccid(recalled, sig, note.letter);
      Ok(LabelState(memory, sig, st.labels + [Label(note.letter, accid, dur)]))
  }

  /** One iteration of the loop over notes. */
  function Step(doc: Document, t: KeyTables, i: nat, st: LabelState): (r: Result<LabelState>)
    requires i < |doc.notes| && |st.labels| == i && DistinctKeys(t.perMeasure)
    ensures r.Ok? ==> |r.value.labels| == i + 1 && r.value.labels[..i] == st.labels
  {
    var dur :- NoteDuration(doc.notes[i]);
    match TieStart(TieMap(doc.ties), doc.notes[i].id)
    case Some(startId) => TieStep(doc, i, st, startId, dur)
    case None => PlainStep(doc, t, i, st, dur)
  }

  /** The state after the first `n` notes: one label per note. */
  function LabelUpTo(doc: Document, t: KeyTables, n: nat): (r: Result<LabelState>)
    requires n <= |doc.notes| && DistinctKeys(t.perMeasure)
    ensures r.Ok? ==> |r.value.labels| == n
  {
    if n == 0 then Ok(LabelState(map[], t.sig, []))
    else
      var st :- LabelUpTo(doc, t, n - 1);
      Step(doc, t, n - 1, st)
  }

  /** `label_notes`: the labels of all notes, in document order. */
  function LabelNotes(doc: Document): (r: Result<seq<Label>>)
    ensures r.Ok? ==> |r.value| == |doc.notes| && WellFormed(r.value)
  {
    var t :- BuildKeyTables(doc);
    var st :- LabelUpTo(doc, t, |doc.notes|);
    LabelUpToWellFormed(doc, t, |doc.notes|);
    Ok(st.labels)
  }

  // ----------------------------------------------------------------- lemmas

  /** The state after `n` notes is one step past the state after `n - 1`. */
  lemma LabelUpToUnfold(doc: Document, t: KeyTables, n: nat)
    requires 0 < n <= |doc.notes| && DistinctKeys(t.perMeasure)
    requires LabelUpTo(doc, t, n).Ok?
    ensures LabelUpTo(doc, t, n - 1).Ok?
    ensures Step(doc, t, n - 1, LabelUpTo(doc, t, n - 1).value) == LabelUpTo(doc, t, n)
  {
  }

  /** One step keeps the earlier labels and adds one. */
  lemma LabelUpToLabels(doc: Document, t: KeyTables, n: nat)
    requires 0 < n <= |doc.notes| && DistinctKeys(t.perMeasure)
    requires LabelUpTo(doc, t, n).Ok?
    ensures LabelUpTo(doc, t, n - 1).Ok?
    ensures LabelUpTo(doc, t, n).value.labels[..n - 1] == LabelUpTo(doc, t, n - 1).value.labels
  {
    LabelUpToUnfold(doc, t, n);
  }

  /** After well-formed labels, the label one step adds is well formed: it is
      written afresh or takes an earlier label's accidental. */
  lemma LabelUpToLast(doc: Document, t: KeyTables, n: nat)
    requires 0 < n <= |doc.notes| && DistinctKeys(t.perMeasure)
    requires LabelUpTo(doc, t, n).Ok?
    requires LabelUpTo(doc, t, n - 1).Ok? && WellFormed(LabelUpTo(doc, t, n - 1).value.labels)
    ensures ModernAccid(LabelUpTo(doc, t, n).value.labels[n - 1].accid)
  {
    LabelUpToUnfold(doc, t, n);
    var st := LabelUpTo(doc, t, n - 1).value;
    var dur := NoteDuration(doc.notes[n - 1]).value;
    match TieStart(TieMap(doc.ties), doc.notes[n - 1].id)
    case Some(startId) =>
      assert TieStep(doc, n - 1, st, startId, dur) == LabelUpTo(doc, t, n);
    case None =>
      assert PlainStep(doc, t, n - 1, st, dur) == LabelUpTo(doc, t, n);
  }

  /** One step updates the memory as the reference definition does. */
  lemma LabelUpToMemory(doc: Document, t: KeyTables, n: nat)
    requires 0 < n <= |doc.notes| && DistinctKeys(t.perMeasure)
    requires LabelUpTo(doc, t, n).Ok?
    ensures LabelUpTo(doc, t, n - 1).Ok?
    ensures LabelUpTo(doc, t, n).value.memory == NextMemory(doc, n - 1, LabelUpTo(doc, t, n - 1).value.memory)
  {
    if IsTieContinuation(doc, n - 1) {
      LabelUpToUnfold(doc, t, n);
    } else {
      LabelUpToPlain(doc, t, n);
      PlainStepMemory(doc, t, n - 1, LabelUpTo(doc, t, n - 1).value, NoteDuration(doc.notes[n - 1]).value);
    }
  }

  /** The step at any other note is a plain step. */
  lemma LabelUpToPlain(doc: Document, t: KeyTables, n: nat)
    requires 0 < n <= |doc.notes| && DistinctKeys(t.perMeasure)
    requires LabelUpTo(doc, t, n).Ok? && !IsTieContinuation(doc, n - 1)
    ensures LabelUpTo(doc, t, n - 1).Ok? && NoteDuration(doc.notes[n - 1]).Ok?
    ensures PlainStep(doc, t, n - 1, LabelUpTo(doc, t, n - 1).value, NoteDuration(doc.notes[n - 1]).value) == LabelUpTo(doc, t, n)
  {
    LabelUpToUnfold(doc, t, n);
  }

  /** A plain step updates the memory as the reference definition does. */
  lemma PlainStepMemory(doc: Document, t: KeyTables, i: nat, st: LabelState, dur: string)
    requires i < |doc.notes| && |st.labels| == i && DistinctKeys(t.perMeasure)
    requires !IsTieContinuation(doc, i) && PlainStep(doc, t, i, st, dur).Ok?
    ensures PlainStep(doc, t, i, st, dur).value.memory == NextMemory(doc, i, st.memory)
  {
  }

  /** A plain step assigns `sig` exactly when it picks a signature. */
  lemma PlainStepSig(doc: Document, t: KeyTables, i: nat, st: LabelState, dur: string)
    requires i < |doc.notes| && |st.labels| == i && DistinctKeys(t.perMeasure)
    requires !IsTieContinuation(doc, i) && PlainStep(doc, t, i, st, dur).Ok?
    ensures PlainStep(doc, t, i, st, dur).value.sig ==
      if SetsSig(doc, t, i) then Bound(SelectKeySignature(t, doc.notes[i].measure, doc.notes[i].staff).value.value)
      else st.sig
  {
  }

  /** The `sig` the fold holds after `n` notes is the reference one. */
  lemma {:induction false} LabelUpToSig(doc: Document, t: KeyTables, n: nat)
    requires n <= |doc.notes| && DistinctKeys(t.perMeasure)
    requires LabelUpTo(doc, t, n).Ok?
    ensures LabelUpTo(doc, t, n).value.sig == HeldSig(doc, t, n)
  {
    if n > 0 {
      LabelUpToUnfold(doc, t, n);
      LabelUpToSig(doc, t, n - 1);
      if !IsTieContinuation(doc, n - 1) {
        LabelUpToPlain(doc, t, n);
        PlainStepSig(doc, t, n - 1, LabelUpTo(doc, t, n - 1).value, NoteDuration(doc.notes[n - 1]).value);
      }
    }
  }

  /** Once a note fails, the fold stays failed with the same error. */
  lemma {:induction false} LabelUpToErrSticks(doc: Document, t: KeyTables, m: nat, n: nat)
    requires m <= n <= |doc.notes| && DistinctKeys(t.perMeasure)
    requires LabelUpTo(doc, t, m).Err?
    ensures LabelUpTo(doc, t, n) == LabelUpTo(doc, t, m)
    decreases n - m
  {
    if m < n {
      LabelUpToErrSticks(doc, t, m, n - 1);
    }
  }

  /** Every label the fold writes carries an accidental this renderer writes. */
  lemma {:induction false} LabelUpToWellFormed(doc: Document, t: KeyTables, n: nat)
    requires n <= |doc.notes| && DistinctKeys(t.perMeasure)
    requires LabelUpTo(doc, t, n).Ok?
    ensures WellFormed(LabelUpTo(doc, t, n).value.labels)
  {
    if n > 0 {
      LabelUpToLabels(doc, t, n);
      LabelUpToWellFormed(doc, t, n - 1);
      LabelUpToLast(doc, t, n);
      WellFormedExtend(LabelUpTo(doc, t, n - 1).value.labels, LabelUpTo(doc, t, n).value.labels);
    }
  }

  lemma WellFormedExtend(prev: seq<Label>, ls: seq<Label>)
    requires |ls| == |prev| + 1 && ls[..|prev|] == prev && WellFormed(prev)
    requires ModernAccid(ls[|prev|].accid)
    ensures WellFormed(ls)
  {
    forall j | 0 <= j < |prev|
      ensures ModernAccid(ls[j].accid)
    {
      assert ls[j] == prev[j];
    }
  }

  /** Later notes never change an earlier label. */
  lemma {:induction false} LabelUpToPrefix(doc: Document, t: KeyTables, m: nat, n: nat)
    requires m <= n <= |doc.notes| && DistinctKeys(t.perMeasure)
    requires LabelUpTo(doc, t, n).Ok?
    ensures LabelUpTo(doc, t, m).Ok?
    ensures LabelUpTo(doc, t, m).value.labels == LabelUpTo(doc, t, n).value.labels[..m]
    decreases n - m
  {
    if m < n {
      LabelUpToLabels(doc, t, n);
      LabelUpToPrefix(doc, t, m, n - 1);
      TakeOfTake(LabelUpTo(doc, t, n).value.labels, n - 1, m);
    }
  }

  /** A label, once written, is the final one. */
  lemma LabelAt(doc: Document, t: KeyTables, j: nat, m: nat)
    requires j < m <= |doc.notes| && DistinctKeys(t.perMeasure)
    requires LabelUpTo(doc, t, |doc.notes|).Ok?
    ensures LabelUpTo(doc, t, m).Ok?
    ensures LabelUpTo(doc, t, m).value.labels[j] == LabelUpTo(doc, t, |doc.notes|).value.labels[j]
  {
    LabelUpToPrefix(doc, t, m, |doc.notes|);
    var fin := LabelUpTo(doc, t, |doc.notes|).value.labels;
    var mid := LabelUpTo(doc, t, m).value.labels;
    TakeIndex(fin, m, j);
    assert mid == fin[..m];
    assert mid[j] == fin[..m][j];
  }

  /** The memory after `n` notes is exactly the reference memory: for every
      key, the visible accidental of the last non-tie note stored under it. */
  lemma MemoryIsLastVisible(doc: Document, t: KeyTables, n: nat)
    requires n <= |doc.notes| && DistinctKeys(t.perMeasure)
    requires LabelUpTo(doc, t, n).Ok?
    ensures forall key :: Lookup(LabelUpTo(doc, t, n).value.memory, key) == LastVisible(doc, n, key)
  {
    LabelUpToMemoryIs(doc, t, n);
    MemoryUpToTracks(doc, n);
  }

  /** The fold's memory is the one `NextMemory` builds. */
  lemma {:induction false} LabelUpToMemoryIs(doc: Document, t: KeyTables, n: nat)
    requires n <= |doc.notes| && DistinctKeys(t.perMeasure)
    requires LabelUpTo(doc, t, n).Ok?
    ensures LabelUpTo(doc, t, n).value.memory == MemoryUpTo(doc, n)
  {
    if n > 0 {
      LabelUpToMemory(doc, t, n);
      LabelUpToMemoryIs(doc, t, n - 1);
    }
  }

  /** The step at a tie continuation takes the start's letter and accidental. */
  lemma LabelUpToTie(doc: Document, t: KeyTables, i: nat)
    requires i < |doc.notes| && DistinctKeys(t.perMeasure) && IsTieContinuation(doc, i)
    requires LabelUpTo(doc, t, i + 1).Ok?
    ensures LabelUpTo(doc, t, i).Ok? && NoteDuration(doc.notes[i]).Ok?
    ensures var j := FirstNoteWithId(doc.notes, TieStart(TieMap(doc.ties), doc.notes[i].id).value);
      && j.Some? && j.value < i
      && var start := LabelUpTo(doc, t, i).value.labels[j.value];
      LabelUpTo(doc, t, i + 1).value.labels[i] == Label(start.letter, start.accid, NoteDuration(doc.notes[i]).value)
  {
    LabelUpToUnfold(doc, t, i + 1);
    var st := LabelUpTo(doc, t, i).value;
    var dur := NoteDuration(doc.notes[i]).value;
    var startId := TieStart(TieMap(doc.ties), doc.notes[i].id).value;
    assert TieStep(doc, i, st, startId, dur) == LabelUpTo(doc, t, i + 1);
  }

  /** A tie continuation is labelled with the letter and accidental of the
      tie start (the first note carrying the start id, which comes earlier)
      and its own duration, whatever accidentals it carries itself; the text
      is the start label's text up to the colon, then the own duration. */
  lemma TieContinuationLabel(doc: Document, ls: seq<Label>, i: nat)
    requires LabelNotes(doc) == Ok(ls) && i < |doc.notes| && IsTieContinuation(doc, i)
    ensures var j := FirstNoteWithId(doc.notes, TieStart(TieMap(doc.ties), doc.notes[i].id).value);
      && j.Some? && j.value < i
      && ls[i] == Label(ls[j.value].letter, ls[j.value].accid, ls[i].dur)
      && LabelText(ls[i]) == BeforeColon(LabelText(ls[j.value])) + ":" + ls[i].dur
    ensures NoteDuration(doc.notes[i]) == Ok(ls[i].dur)
  {
    var t := BuildKeyTables(doc).value;
    LabelNotesIsFold(doc, t, ls);
    TieCopiesStart(doc, t, i);
    var j := FirstNoteWithId(doc.notes, TieStart(TieMap(doc.ties), doc.notes[i].id).value).value;
    assert ModernAccid(ls[j].accid);
    CopiedLabelText(ls[i], ls[j]);
  }

  /** `LabelNotes` returns the labels of the fold over every note. */
  lemma LabelNotesIsFold(doc: Document, t: KeyTables, ls: seq<Label>)
    requires BuildKeyTables(doc) == Ok(t) && LabelNotes(doc) == Ok(ls)
    ensures DistinctKeys(t.perMeasure) && LabelUpTo(doc, t, |doc.notes|).Ok?
    ensures LabelUpTo(doc, t, |doc.notes|).value.labels == ls
  {
  }

  /** In the fold's final labels, a tie continuation copies its start's
      letter and accidental. */
  lemma TieCopiesStart(doc: Document, t: KeyTables, i: nat)
    requires i < |doc.notes| && DistinctKeys(t.perMeasure) && IsTieContinuation(doc, i)
    requires LabelUpTo(doc, t, |doc.notes|).Ok?
    ensures var j, fin := FirstNoteWithId(doc.notes, TieStart(TieMap(doc.ties), doc.notes[i].id).value),
        LabelUpTo(doc, t, |doc.notes|).value.labels;
      && j.Some? && j.value < i && NoteDuration(doc.notes[i]).Ok?
      && fin[i] == Label(fin[j.value].letter, fin[j.value].accid, NoteDuration(doc.notes[i]).value)
  {
    LabelAt(doc, t, i, i + 1);
    LabelUpToTie(doc, t, i);
    var j := FirstNoteWithId(doc.notes, TieStart(TieMap(doc.ties), doc.notes[i].id).value).value;
    LabelAt(doc, t, j, i);
  }

  /** The label one plain step writes, given a memory that agrees with the
      reference definition. */
  lemma PlainStepLabel(doc: Document, t: KeyTables, i: nat, st: LabelState, dur: string)
    requires i < |doc.notes| && |st.labels| == i && DistinctKeys(t.perMeasure)
    requires PlainStep(doc, t, i, st, dur).Ok?
    requires forall key :: Lookup(st.memory, key) == LastVisible(doc, i, key)
    ensures doc.notes[i].octave.Some?
    ensures var l := PlainStep(doc, t, i, st, dur).value.labels[i];
      && l.letter == doc.notes[i].letter && l.dur == dur
      && AccidFollowsPriority(doc, t, i, st.sig, l.accid)
  {
    var note := doc.notes[i];
    var key := MemKey(note.measure, note.letter, note.octave.value);
    assert Lookup(st.memory, key) == LastVisible(doc, i, key);
  }

  /** With the reference memory and `sig`, a plain step whose note has an
      octave and a pickable signature writes exactly what `ResolveAccid`
      gives for the effective value and signature, or fails with its error. */
  lemma PlainStepResolve(doc: Document, t: KeyTables, i: nat, st: LabelState, dur: string)
    requires i < |doc.notes| && |st.labels| == i && DistinctKeys(t.perMeasure)
    requires doc.notes[i].octave.Some?
    requires SelectKeySignature(t, doc.notes[i].measure, doc.notes[i].staff).Ok?
    requires forall key :: Lookup(st.memory, key) == LastVisible(doc, i, key)
    requires st.sig == HeldSig(doc, t, i)
    ensures var res := ResolveAccid(EffectiveAccid(doc, i), SigAt(doc, t, i), doc.notes[i].letter);
      && (res.Err? ==> PlainStep(doc, t, i, st, dur) == Err(res.error))
      && (res.Ok? ==> PlainStep(doc, t, i, st, dur).Ok? && PlainStep(doc, t, i, st, dur).value.labels[i].accid == res.value)
  {
    var note := doc.notes[i];
    var key := MemKey(note.measure, note.letter, note.octave.value);
    assert Lookup(st.memory, key) == LastVisible(doc, i, key);
  }

  /** A plain note the fold reaches, whose accidental does not resolve (no
      signature assigned yet, or a truthy one outside the accepted tokens),
      makes `label_notes` fail with that error. */
  lemma ResolveFailureAborts(doc: Document, t: KeyTables, i: nat)
    requires BuildKeyTables(doc) == Ok(t) && i < |doc.notes| && !IsTieContinuation(doc, i)
    requires LabelUpTo(doc, t, i).Ok? && NoteDuration(doc.notes[i]).Ok? && doc.notes[i].octave.Some?
    requires SelectKeySignature(t, doc.notes[i].measure, doc.notes[i].staff).Ok?
    requires ResolveAccid(EffectiveAccid(doc, i), SigAt(doc, t, i), doc.notes[i].letter).Err?
    ensures LabelNotes(doc) == Err(ResolveAccid(EffectiveAccid(doc, i), SigAt(doc, t, i), doc.notes[i].letter).error)
  {
    var st := LabelUpTo(doc, t, i).value;
    MemoryIsLastVisible(doc, t, i);
    LabelUpToSig(doc, t, i);
    PlainStepResolve(doc, t, i, st, NoteDuration(doc.notes[i]).value);
    assert LabelUpTo(doc, t, i + 1).Err?;
    LabelUpToErrSticks(doc, t, i + 1, |doc.notes|);
  }

  /** The accidental priority for plain note `i` whose fold state held `sig`
      before it: an explicit or recalled sharp/flat (single or double)
      verbatim, a natural as nothing, otherwise the key signature picked for
      its measure and staff, or, when none is picked, the held one. */
  predicate AccidFollowsPriority(doc: Document, t: KeyTables, i: nat, sig: SigVar, accid: string)
    requires i < |doc.notes| && doc.notes[i].octave.Some? && DistinctKeys(t.perMeasure)
  {
    var v := EffectiveAccid(doc, i);
    && (PassThrough(v) ==> accid == v)
    && (v == "n" ==> accid == "")
    && (!PassThrough(v) && v != "n" ==>
          var note := doc.notes[i];
          var sel := SelectKeySignature(t, note.measure, note.staff);
          && sel.Ok?
          && (sel.value.Some? ==> accid == KeyAccidental(sel.value.value, note.letter))
          && (sel.value.None? ==> sig.Bound? && accid == KeyAccidental(sig.value, note.letter)))
  }

  /** Every other note keeps its own letter and duration, and its accidental
      follows the priority above, with the signature `sig` holds before it
      (`HeldSig`): it is what `ResolveAccid` gives for its effective value and
      signature. */
  lemma PlainNoteLabel(doc: Document, t: KeyTables, ls: seq<Label>, i: nat)
    requires BuildKeyTables(doc) == Ok(t) && LabelNotes(doc) == Ok(ls)
    requires i < |doc.notes| && !IsTieContinuation(doc, i)
    ensures ls[i].letter == doc.notes[i].letter
    ensures NoteDuration(doc.notes[i]) == Ok(ls[i].dur)
    ensures doc.notes[i].octave.Some? && SelectKeySignature(t, doc.notes[i].measure, doc.notes[i].staff).Ok?
    ensures AccidFollowsPriority(doc, t, i, HeldSig(doc, t, i), ls[i].accid)
    ensures ResolveAccid(EffectiveAccid(doc, i), SigAt(doc, t, i), doc.notes[i].letter) == Ok(ls[i].accid)
  {
    LabelNotesIsFold(doc, t, ls);
    LabelAt(doc, t, i, i + 1);
    LabelUpToUnfold(doc, t, i + 1);
    var st := LabelUpTo(doc, t, i).value;
    var st' := LabelUpTo(doc, t, i + 1).value;
    var dur := NoteDuration(doc.notes[i]).value;
    assert PlainStep(doc, t, i, st, dur) == Ok(st');
    MemoryIsLastVisible(doc, t, i);
    LabelUpToSig(doc, t, i);
    PlainStepLabel(doc, t, i, st, dur);
    PlainStepResolve(doc, t, i, st, dur);
  }
}
