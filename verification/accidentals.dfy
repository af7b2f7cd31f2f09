/** Explicit-accidental discovery and the per-measure accidental memory, which
    both renderers share verbatim. */
module Accidentals {
  import opened Common
  import opened Score

  /** Under which attribute name a value was found: `accid.ges`, `accid`, or neither. */
  datatype AccidName = Gestural | Visible | Unnamed

  /** The attributes consulted: a child `<accid>` element replaces the note's own. */
  function AccidSource(note: Note): AccidAttrs {
    if note.accidChild.Some? then note.accidChild.value else note.attrs
  }

  /** The explicit accidental of a note: `accid.ges` first, then `accid`, the
      first non-empty value winning; neither gives the empty value. */
  function PickAccid(note: Note): (r: (AccidName, string))
    ensures r.0 == Unnamed <==> r.1 == ""
    ensures r.0 == Gestural <==> Truthy(AccidSource(note).ges)
    ensures r.0 == Gestural ==> r.1 == AccidSource(note).ges.value
    ensures r.0 == Visible <==> !Truthy(AccidSource(note).ges) && Truthy(AccidSource(note).vis)
    ensures r.0 == Visible ==> r.1 == AccidSource(note).vis.value
  {
    var src := AccidSource(note);
    if Truthy(src.ges) then (Gestural, src.ges.value)
    else if Truthy(src.vis) then (Visible, src.vis.value)
    else (Unnamed, "")
  }

  /** The memory key `"{measure}:::{LETTER}:::{oct}"`. The measure prints
      without ':' and the letter is one character, so distinct triples give
      distinct key strings and the triple is the key. It has no staff part. */
  datatype MemKey = MemKey(measure: int, letter: Letter, octave: string)

  type Memory = map<MemKey, string>

  function KeyOf(note: Note): Option<MemKey> {
    if note.octave.Some? then Some(MemKey(note.measure, note.letter, note.octave.value)) else None
  }

  function Lookup(memory: Memory, key: MemKey): Option<string> {
    if key in memory then Some(memory[key]) else None
  }

  /** The memory update and recall for one note: a value found under `accid`
      is stored and used; no value at all reuses the stored one for the key;
      a gestural value is used and not stored. */
  function Remember(memory: Memory, key: MemKey, name: AccidName, val: string): (r: (Memory, string))
    requires name == Unnamed <==> val == ""
    ensures name == Visible ==> r.0 == memory[key := val] && r.1 == val
    ensures name != Visible ==> r.0 == memory
    ensures name == Gestural ==> r.1 == val
    ensures name == Unnamed ==> r.1 == Lookup(memory, key).GetOr("")
  {
    if name == Visible then (memory[key := val], val)
    else if val == "" then (memory, if key in memory then memory[key] else val)
    else (memory, val)
  }

  /** Whether note `j` writes to the memory: it is not a tie continuation and
      its value was found under the visible name. */
  predicate StoresVisible(doc: Document, j: nat)
    requires j < |doc.notes|
  {
    !IsTieContinuation(doc, j) && PickAccid(doc.notes[j]).0 == Visible
  }

  /** Reference definition of the memory: the visible accidental of the last of
      the first `n` notes that stores under `key`. */
  function LastVisible(doc: Document, n: nat, key: MemKey): Option<string>
    requires n <= |doc.notes|
  {
    if n == 0 then None
    else if StoresVisible(doc, n - 1) && KeyOf(doc.notes[n - 1]) == Some(key)
    then Some(PickAccid(doc.notes[n - 1]).1)
    else LastVisible(doc, n - 1, key)
  }

  /** The memory after note `i`, in the reference definition's terms: a note
      that stores writes its visible value under its key. */
  function NextMemory(doc: Document, i: nat, memory: Memory): Memory
    requires i < |doc.notes|
  {
    if StoresVisible(doc, i) && KeyOf(doc.notes[i]).Some?
    then memory[KeyOf(doc.notes[i]).value := PickAccid(doc.notes[i]).1]
    else memory
  }

  /** A memory that agrees with the reference definition before note `i`
      agrees with it after the note's update. */
  lemma NextMemoryTracks(doc: Document, i: nat, memory: Memory, next: Memory)
    requires i < |doc.notes| && next == NextMemory(doc, i, memory)
    requires forall key :: Lookup(memory, key) == LastVisible(doc, i, key)
    ensures forall key :: Lookup(next, key) == LastVisible(doc, i + 1, key)
  {
  }

  /** The memory after the first `n` notes, built by `NextMemory` alone. */
  function MemoryUpTo(doc: Document, n: nat): Memory
    requires n <= |doc.notes|
  {
    if n == 0 then map[] else NextMemory(doc, n - 1, MemoryUpTo(doc, n - 1))
  }

  /** Building the memory note by note yields the reference definition. */
  lemma {:induction false} MemoryUpToTracks(doc: Document, n: nat)
    requires n <= |doc.notes|
    ensures forall key :: Lookup(MemoryUpTo(doc, n), key) == LastVisible(doc, n, key)
  {
    if n > 0 {
      MemoryUpToTracks(doc, n - 1);
      NextMemoryTracks(doc, n - 1, MemoryUpTo(doc, n - 1), MemoryUpTo(doc, n));
    }
  }

  /** The value a plain note is resolved from, by the reference definition:
      its own explicit value, else the last visible one stored under its key. */
  function EffectiveAccid(doc: Document, i: nat): string
    requires i < |doc.notes| && doc.notes[i].octave.Some?
  {
    var own := PickAccid(doc.notes[i]).1;
    if own != "" then own else LastVisible(doc, i, KeyOf(doc.notes[i]).value).GetOr("")
  }

  /** Whether note `j` stores its visible accidental under `key`. */
  predicate WritesKey(doc: Document, j: nat, key: MemKey)
    requires j < |doc.notes|
  {
    StoresVisible(doc, j) && KeyOf(doc.notes[j]) == Some(key)
  }

  /** A note recalls nothing only when no earlier note stored under its key. */
  lemma {:induction false} LastVisibleAbsent(doc: Document, n: nat, key: MemKey)
    requires n <= |doc.notes|
    ensures LastVisible(doc, n, key).None? <==> forall j :: 0 <= j < n ==> !WritesKey(doc, j, key)
  {
    if n > 0 {
      LastVisibleAbsent(doc, n - 1, key);
      if WritesKey(doc, n - 1, key) {
        assert LastVisible(doc, n, key).Some?;
      } else {
        assert LastVisible(doc, n, key) == LastVisible(doc, n - 1, key);
      }
    }
  }

  /** A note only ever recalls a visible accidental stored under its own key
      (same measure, letter and octave), and it recalls the latest of them. */
  lemma {:induction false} LastVisibleLatest(doc: Document, n: nat, key: MemKey)
    requires n <= |doc.notes|
    ensures LastVisible(doc, n, key).Some? ==>
      exists j :: 0 <= j < n && WritesKey(doc, j, key)
        && LastVisible(doc, n, key) == Some(PickAccid(doc.notes[j]).1)
        && forall l :: j < l < n ==> !WritesKey(doc, l, key)
  {
    if n > 0 {
      if WritesKey(doc, n - 1, key) {
        assert LastVisible(doc, n, key) == Some(PickAccid(doc.notes[n - 1]).1);
      } else {
        assert LastVisible(doc, n, key) == LastVisible(doc, n - 1, key);
        LastVisibleLatest(doc, n - 1, key);
        if LastVisible(doc, n - 1, key).Some? {
          var j :| 0 <= j < n - 1 && WritesKey(doc, j, key)
            && LastVisible(doc, n - 1, key) == Some(PickAccid(doc.notes[j]).1)
            && forall l :: j < l < n - 1 ==> !WritesKey(doc, l, key);
          assert forall l :: j < l < n ==> !WritesKey(doc, l, key);
        }
      }
    }
  }
}
