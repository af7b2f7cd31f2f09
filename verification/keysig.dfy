/** Key signatures: collecting the per-staff and per-measure tables, picking the
    effective signature for a note's measure, and the current renderer's
    table of which letters a signature sharpens or flattens. */
module KeySignature {
  import opened Common
  import opened Score

  /** One table entry: `{"sig": ..., "mode": ...}`; entries read from
      `staffDef@keysig` have no "mode" key. */
  datatype KeyEntry = KeyEntry(sig: Option<string>, mode: Option<string>)

  /** The Python local `sig`: never assigned yet, or holding an attribute value
      (itself possibly `None`). It keeps its value across notes. */
  datatype SigVar = Unbound | Bound(value: Option<string>)

  /** `keysigs_by_staff_num`, `keysigs_by_measure`, and the value `sig` holds
      once the collection loops are done. */
  datatype KeyTables = KeyTables(perStaff: map<string, KeyEntry>, perMeasure: Dict<KeyEntry>, sig: SigVar)

  // ------------------------------------------------------------- collection

  /** The loop over `<keySig>` elements: a staff-level one goes into the
      per-staff table (its staffDef must hold a clef), a score-level one into
      the per-measure table under the next measure's number; later entries
      overwrite earlier ones; `sig` ends up holding the last one's value. */
  function CollectKeySigs(decls: seq<KeyDecl>): (r: Result<KeyTables>)
    ensures r.Ok? <==> forall k :: 0 <= k < |decls| && decls[k].StaffKeySig? ==> decls[k].hasClef
    ensures r.Err? ==> r.error == MissingClef
    ensures r.Ok? ==> DistinctKeys(r.value.perMeasure)
    ensures r.Ok? ==> r.value.sig == if |decls| == 0 then Unbound else Bound(decls[|decls| - 1].sig)
    ensures r.Ok? ==> forall s :: s in r.value.perStaff <==>
      exists k :: 0 <= k < |decls| && decls[k].StaffKeySig? && decls[k].staff == s
    ensures r.Ok? ==> forall s :: s in r.value.perStaff ==> r.value.perStaff[s].mode.Some?
  {
    if |decls| == 0 then Ok(KeyTables(map[], [], Unbound))
    else
      var init := decls[..|decls| - 1];
      assert forall k :: 0 <= k < |init| ==> init[k] == decls[k];
      var t :- CollectKeySigs(init);
      var d := decls[|decls| - 1];
      var mode := Some(d.mode.GetOr("major"));
      match d
      case StaffKeySig(staff, hasClef, sig, _) =>
        if !hasClef then Err(MissingClef)
        else Ok(KeyTables(t.perStaff[staff := KeyEntry(sig, mode)], t.perMeasure, Bound(sig)))
      case ScoreKeySig(m, sig, _) =>
        Ok(KeyTables(t.perStaff, Put(t.perMeasure, m, KeyEntry(sig, mode)), Bound(sig)))
  }

  /** The second loop, over `<staffDef>` elements, run only when no staff-level
      `<keySig>` was found: a truthy `keysig` with a truthy `n` goes into the
      per-staff table without a mode; `sig` ends up holding the last
      staffDef's `keysig`, truthy or not. */
  function StaffDefFallback(defs: seq<StaffDef>, t: KeyTables): (r: KeyTables)
    ensures r.perMeasure == t.perMeasure
    ensures r.sig == if |defs| == 0 then t.sig else Bound(defs[|defs| - 1].keysig)
    ensures forall s :: s in r.perStaff <==> (s in t.perStaff ||
      exists k :: 0 <= k < |defs| && Truthy(defs[k].keysig) && defs[k].staff == Some(s) && s != "")
    ensures forall s :: s in r.perStaff && s !in t.perStaff ==> r.perStaff[s].mode.None?
  {
    if |defs| == 0 then t
    else
      var init := defs[..|defs| - 1];
      assert forall k :: 0 <= k < |init| ==> init[k] == defs[k];
      var r := StaffDefFallback(init, t);
      var d := defs[|defs| - 1];
      var perStaff :=
        if Truthy(d.keysig) && Truthy(d.staff) then r.perStaff[d.staff.value := KeyEntry(d.keysig, None)]
        else r.perStaff;
      KeyTables(perStaff, r.perMeasure, Bound(d.keysig))
  }

  /** Both collection loops of `label_notes`. */
  function BuildKeyTables(doc: Document): (r: Result<KeyTables>)
    ensures r.Ok? ==> DistinctKeys(r.value.perMeasure)
    ensures r.Ok? <==> forall k :: 0 <= k < |doc.keySigs| && doc.keySigs[k].StaffKeySig? ==> doc.keySigs[k].hasClef
  {
    var t :- CollectKeySigs(doc.keySigs);
    if |t.perStaff| == 0 then Ok(StaffDefFallback(doc.staffDefs, t)) else Ok(t)
  }

  /** The entry a `<keySig>` stores: its sig, and its mode defaulting to "major". */
  function DeclEntry(d: KeyDecl): KeyEntry {
    KeyEntry(d.sig, Some(d.mode.GetOr("major")))
  }

  /** Whether no declaration after the `k`-th is staff-level for the same staff. */
  predicate LastForStaff(decls: seq<KeyDecl>, k: nat)
    requires k < |decls| && decls[k].StaffKeySig?
  {
    forall l :: k < l < |decls| ==> !(decls[l].StaffKeySig? && decls[l].staff == decls[k].staff)
  }

  /** Whether no declaration after the `k`-th is score-level for the same measure. */
  predicate LastForMeasure(decls: seq<KeyDecl>, k: nat)
    requires k < |decls| && decls[k].ScoreKeySig?
  {
    forall l :: k < l < |decls| ==> !(decls[l].ScoreKeySig? && decls[l].nextMeasure == decls[k].nextMeasure)
  }

  /** What the `<keySig>` loop stores: a staff's entry is that of its last
      staff-level declaration, and a measure's entry that of the last
      score-level declaration whose next measure it is. */
  lemma {:induction false} CollectKeySigsEntries(decls: seq<KeyDecl>, k: nat)
    requires k < |decls| && CollectKeySigs(decls).Ok?
    ensures decls[k].StaffKeySig? && LastForStaff(decls, k) ==>
      decls[k].staff in CollectKeySigs(decls).value.perStaff
      && CollectKeySigs(decls).value.perStaff[decls[k].staff] == DeclEntry(decls[k])
    ensures decls[k].ScoreKeySig? && LastForMeasure(decls, k) ==>
      Get(CollectKeySigs(decls).value.perMeasure, decls[k].nextMeasure) == Some(DeclEntry(decls[k]))
  {
    var init := decls[..|decls| - 1];
    assert forall j :: 0 <= j < |init| ==> init[j] == decls[j];
    var t := CollectKeySigs(init).value;
    if k < |decls| - 1 {
      CollectKeySigsEntries(init, k);
      assert decls[k].StaffKeySig? && LastForStaff(decls, k) ==> LastForStaff(init, k);
      assert decls[k].ScoreKeySig? && LastForMeasure(decls, k) ==> LastForMeasure(init, k);
    }
  }

  /** The per-measure table's keys are exactly the next measures of the
      score-level declarations. */
  lemma {:induction false} CollectKeySigsMeasures(decls: seq<KeyDecl>)
    requires CollectKeySigs(decls).Ok?
    ensures forall m :: Get(CollectKeySigs(decls).value.perMeasure, m).Some? <==>
      exists k :: 0 <= k < |decls| && decls[k].ScoreKeySig? && decls[k].nextMeasure == m
  {
    if |decls| > 0 {
      var init := decls[..|decls| - 1];
      assert forall j :: 0 <= j < |init| ==> init[j] == decls[j];
      CollectKeySigsMeasures(init);
    }
  }

  /** Whether the `k`-th staffDef has a truthy `keysig` and `n`, and no later
      such staffDef has the same `n`. */
  predicate LastFallback(defs: seq<StaffDef>, k: nat)
    requires k < |defs|
  {
    && Truthy(defs[k].keysig) && Truthy(defs[k].staff)
    && forall l :: k < l < |defs| && Truthy(defs[l].keysig) && Truthy(defs[l].staff) ==> defs[l].staff != defs[k].staff
  }

  /** What the `<staffDef>` loop stores: a staff's entry holds the `keysig` of
      its last staffDef with a truthy `keysig` and `n`, without a mode. */
  lemma {:induction false} StaffDefFallbackEntries(defs: seq<StaffDef>, t: KeyTables, k: nat)
    requires k < |defs| && LastFallback(defs, k)
    ensures defs[k].staff.value in StaffDefFallback(defs, t).perStaff
    ensures StaffDefFallback(defs, t).perStaff[defs[k].staff.value] == KeyEntry(defs[k].keysig, None)
  {
    var init := defs[..|defs| - 1];
    assert forall j :: 0 <= j < |init| ==> init[j] == defs[j];
    if k < |defs| - 1 {
      assert LastFallback(init, k);
      StaffDefFallbackEntries(init, t, k);
    }
  }

  /** The tables the labelling reads, in terms of the document: per-measure
      entries from the last score-level `<keySig>` of each measure, and
      per-staff entries from the last staff-level `<keySig>` of each staff. */
  lemma BuildKeyTablesEntries(doc: Document, t: KeyTables)
    requires BuildKeyTables(doc) == Ok(t)
    ensures forall k :: 0 <= k < |doc.keySigs| && doc.keySigs[k].ScoreKeySig? && LastForMeasure(doc.keySigs, k) ==>
      Get(t.perMeasure, doc.keySigs[k].nextMeasure) == Some(DeclEntry(doc.keySigs[k]))
    ensures forall k :: 0 <= k < |doc.keySigs| && doc.keySigs[k].StaffKeySig? && LastForStaff(doc.keySigs, k) ==>
      doc.keySigs[k].staff in t.perStaff && t.perStaff[doc.keySigs[k].staff] == DeclEntry(doc.keySigs[k])
  {
    forall k | 0 <= k < |doc.keySigs| && doc.keySigs[k].ScoreKeySig? && LastForMeasure(doc.keySigs, k)
      ensures Get(t.perMeasure, doc.keySigs[k].nextMeasure) == Some(DeclEntry(doc.keySigs[k]))
    {
      CollectKeySigsEntries(doc.keySigs, k);
    }
    forall k | 0 <= k < |doc.keySigs| && doc.keySigs[k].StaffKeySig? && LastForStaff(doc.keySigs, k)
      ensures doc.keySigs[k].staff in t.perStaff && t.perStaff[doc.keySigs[k].staff] == DeclEntry(doc.keySigs[k])
    {
      CollectKeySigsEntries(doc.keySigs, k);
    }
  }

  /** Without any staff-level `<keySig>`, each staff's entry comes from its
      last usable `<staffDef>` and `sig` holds the last staffDef's `keysig`;
      otherwise `sig` holds the last `<keySig>`'s value, or stays unassigned. */
  lemma BuildKeyTablesFallback(doc: Document, t: KeyTables)
    requires BuildKeyTables(doc) == Ok(t)
    ensures (forall k :: 0 <= k < |doc.keySigs| ==> !doc.keySigs[k].StaffKeySig?) ==>
      forall k :: 0 <= k < |doc.staffDefs| && LastFallback(doc.staffDefs, k) ==>
        doc.staffDefs[k].staff.value in t.perStaff && t.perStaff[doc.staffDefs[k].staff.value] == KeyEntry(doc.staffDefs[k].keysig, None)
    ensures (exists k :: 0 <= k < |doc.keySigs| && doc.keySigs[k].StaffKeySig?) || |doc.staffDefs| == 0 ==>
      t.sig == if |doc.keySigs| == 0 then Unbound else Bound(doc.keySigs[|doc.keySigs| - 1].sig)
    ensures (forall k :: 0 <= k < |doc.keySigs| ==> !doc.keySigs[k].StaffKeySig?) && |doc.staffDefs| > 0 ==>
      t.sig == Bound(doc.staffDefs[|doc.staffDefs| - 1].keysig)
  {
    var c := CollectKeySigs(doc.keySigs).value;
    StaffKeySigsPresent(doc.keySigs);
    if |c.perStaff| == 0 {
      forall k | 0 <= k < |doc.staffDefs| && LastFallback(doc.staffDefs, k)
        ensures doc.staffDefs[k].staff.value in t.perStaff && t.perStaff[doc.staffDefs[k].staff.value] == KeyEntry(doc.staffDefs[k].keysig, None)
      {
        StaffDefFallbackEntries(doc.staffDefs, c, k);
      }
    }
  }

  /** The per-staff table is empty exactly when no `<keySig>` is staff-level,
      which is when the `<staffDef>` loop runs. */
  lemma StaffKeySigsPresent(decls: seq<KeyDecl>)
    requires CollectKeySigs(decls).Ok?
    ensures |CollectKeySigs(decls).value.perStaff| > 0 <==> exists k :: 0 <= k < |decls| && decls[k].StaffKeySig?
  {
    var perStaff := CollectKeySigs(decls).value.perStaff;
    forall k | 0 <= k < |decls| && decls[k].StaffKeySig? ensures |perStaff| > 0 {
      assert decls[k].staff in perStaff;
    }
    if |perStaff| > 0 {
      var s :| s in perStaff;
    }
  }

  // -------------------------------------------------------------- selection

  /** `sorted(keysigs_by_measure)` */
  function MeasureKeys(t: KeyTables): (ks: seq<int>)
    requires DistinctKeys(t.perMeasure)
    ensures Increasing(ks)
    ensures |ks| == |t.perMeasure|
    ensures forall m :: m in ks <==> Get(t.perMeasure, m).Some?
  {
    var keys := Keys(t.perMeasure);
    assert Distinct(keys);
    forall m ensures m in keys <==> Get(t.perMeasure, m).Some? {
      GetSomeIffKey(t.perMeasure, m);
    }
    Sort(keys)
  }

  /** Whether consecutive keys `ks[j]` and `ks[j + 1]` bracket measure `m`. */
  predicate Brackets(ks: seq<int>, j: nat, m: int)
    requires j + 1 < |ks|
  {
    ks[j] <= m < ks[j + 1]
  }

  /** The loop over consecutive sorted keys `ks[i] <= m < ks[i+1]`, from `i`
      on; it has no `break`, so the last match would win. */
  function RangeIndex(ks: seq<int>, m: int, i: nat): (r: Option<nat>)
    requires Increasing(ks)
    ensures r.Some? ==> i <= r.value && r.value + 1 < |ks| && Brackets(ks, r.value, m)
    ensures r.None? ==> forall j :: i <= j && j + 1 < |ks| ==> !Brackets(ks, j, m)
    decreases |ks| - i
  {
    if i + 1 >= |ks| then None
    else
      var later := RangeIndex(ks, m, i + 1);
      if later.Some? then later
      else if Brackets(ks, i, m) then Some(i)
      else None
  }

  /** Whether `a` is the greatest per-measure key not after measure `m`. */
  predicate GreatestKeyAtOrBefore(d: Dict<KeyEntry>, a: int, m: int) {
    Get(d, a).Some? && a <= m && forall c :: Get(d, c).Some? && c <= m ==> c <= a
  }

  /** The key signature a note in `measure` on `staff` is given, or `None`
      when no branch assigns `sig` (it then keeps whatever it held).
      `SelectKeySignatureCases` states which entry each case picks. */
  function SelectKeySignature(t: KeyTables, measure: int, staff: string): Result<Option<Option<string>>>
    requires DistinctKeys(t.perMeasure)
  {
    var ks := MeasureKeys(t);
    if |ks| > 0 && measure < ks[0] then
      if staff !in t.perStaff then Err(MissingStaffKey)
      else if t.perStaff[staff].mode.None? then Err(MissingStaffMode)
      else Ok(Some(t.perStaff[staff].sig))
    else if |t.perMeasure| == 1 then Ok(Some(t.perMeasure[0].1.sig))
    else match RangeIndex(ks, measure, 0)
      case None => Ok(None)
      case Some(i) =>
        assert ks[i] in ks;
        Ok(Some(Get(t.perMeasure, ks[i]).value.sig))
  }

  /** Before the first per-measure entry the staff's entry is used; with a
      single per-measure entry that entry is used; otherwise the greatest
      key at or before the measure, provided a later key exists. */
  lemma SelectKeySignatureCases(t: KeyTables, measure: int, staff: string)
    requires DistinctKeys(t.perMeasure)
    // no per-measure entries: the per-staff table is never consulted
    ensures |t.perMeasure| == 0 ==> SelectKeySignature(t, measure, staff) == Ok(None)
    // the measure precedes every per-measure entry
    ensures |t.perMeasure| > 0 && (forall k :: Get(t.perMeasure, k).Some? ==> measure < k) ==>
      SelectKeySignature(t, measure, staff) ==
        (if staff !in t.perStaff then Err(MissingStaffKey)
         else if t.perStaff[staff].mode.None? then Err(MissingStaffMode)
         else Ok(Some(t.perStaff[staff].sig)))
    // a single per-measure entry covers every later measure
    ensures |t.perMeasure| == 1 && t.perMeasure[0].0 <= measure ==>
      SelectKeySignature(t, measure, staff) == Ok(Some(t.perMeasure[0].1.sig))
    // several entries: the greatest key at or before the measure, if a later key exists
    ensures |t.perMeasure| >= 2 ==> forall a, b ::
      GreatestKeyAtOrBefore(t.perMeasure, a, measure) && Get(t.perMeasure, b).Some? && measure < b ==>
        SelectKeySignature(t, measure, staff) == Ok(Some(Get(t.perMeasure, a).value.sig))
    // several entries: nothing is assigned at or after the last key
    ensures |t.perMeasure| >= 2 && (forall k :: Get(t.perMeasure, k).Some? ==> k <= measure) ==>
      SelectKeySignature(t, measure, staff) == Ok(None)
  {
    var ks := MeasureKeys(t);
    if |ks| > 0 && measure < ks[0] {
      assert forall k :: Get(t.perMeasure, k).Some? ==> measure < k by {
        forall k | Get(t.perMeasure, k).Some? ensures measure < k {
          assert k in ks;
        }
      }
      GetAt(t.perMeasure, 0);
    } else {
      assert |ks| > 0 ==> Get(t.perMeasure, ks[0]).Some? && ks[0] <= measure;
      if |t.perMeasure| == 1 {
        assert ks[0] == t.perMeasure[0].0 by {
          GetAt(t.perMeasure, 0);
          assert forall m :: m in ks ==> m == ks[0];
        }
      } else {
        match RangeIndex(ks, measure, 0)
        case None =>
          RangeGap(t.perMeasure, ks, measure);
        case Some(i) =>
          assert ks[i] in ks && ks[i + 1] in ks;
          RangeHit(t.perMeasure, ks, measure, i);
      }
    }
  }

  /** When the range loop finds interval `i`, its left end is the greatest key
      at or before the measure. */
  lemma RangeHit(d: Dict<KeyEntry>, ks: seq<int>, m: int, i: nat)
    requires Increasing(ks) && forall k :: k in ks <==> Get(d, k).Some?
    requires i + 1 < |ks| && Brackets(ks, i, m)
    ensures forall a :: GreatestKeyAtOrBefore(d, a, m) ==> a == ks[i]
  {
    forall a | GreatestKeyAtOrBefore(d, a, m) ensures a == ks[i] {
      assert ks[i] in ks;
      assert ks[i] <= a < ks[i + 1];
      assert a in ks;
      var p :| 0 <= p < |ks| && ks[p] == a;
      assert i <= p <= i;
    }
  }

  /** When the range loop finds nothing and the measure is not before the
      first key, no key lies after the measure. */
  lemma RangeGap(d: Dict<KeyEntry>, ks: seq<int>, m: int)
    requires Increasing(ks) && forall k :: k in ks <==> Get(d, k).Some?
    requires |ks| > 0 ==> ks[0] <= m
    requires forall j :: 0 <= j && j + 1 < |ks| ==> !Brackets(ks, j, m)
    ensures forall b :: Get(d, b).Some? ==> b <= m
  {
    forall b | Get(d, b).Some? ensures b <= m {
      assert b in ks;
      var q :| 0 <= q < |ks| && ks[q] == b;
      NoGapUpTo(ks, m, q);
    }
  }

  lemma {:induction false} NoGapUpTo(ks: seq<int>, m: int, q: nat)
    requires Increasing(ks) && q < |ks| && |ks| > 0 && ks[0] <= m
    requires forall j :: 0 <= j && j + 1 < |ks| ==> !Brackets(ks, j, m)
    ensures ks[q] <= m
  {
    if q > 0 {
      NoGapUpTo(ks, m, q - 1);
      assert !Brackets(ks, q - 1, m);
    }
  }

  // ------------------------------------------------------------ held `sig`

  /** Whether plain note `j` assigns `sig`: a signature is picked for its
      measure and staff. Tie continuations never touch `sig`. */
  predicate SetsSig(doc: Document, t: KeyTables, j: nat)
    requires j < |doc.notes| && DistinctKeys(t.perMeasure)
  {
    && !IsTieContinuation(doc, j)
    && var sel := SelectKeySignature(t, doc.notes[j].measure, doc.notes[j].staff);
       sel.Ok? && sel.value.Some?
  }

  /** Reference definition of what `sig` holds before note `n`: the value
      the collection loops left, overwritten by every note that picks one. */
  function HeldSig(doc: Document, t: KeyTables, n: nat): SigVar
    requires n <= |doc.notes| && DistinctKeys(t.perMeasure)
  {
    if n == 0 then t.sig
    else if SetsSig(doc, t, n - 1) then
      Bound(SelectKeySignature(t, doc.notes[n - 1].measure, doc.notes[n - 1].staff).value.value)
    else HeldSig(doc, t, n - 1)
  }

  /** The signature plain note `i` is resolved against: the one picked for
      its measure and staff, else the held one. */
  function SigAt(doc: Document, t: KeyTables, i: nat): SigVar
    requires i < |doc.notes| && DistinctKeys(t.perMeasure)
    requires SelectKeySignature(t, doc.notes[i].measure, doc.notes[i].staff).Ok?
  {
    var sel := SelectKeySignature(t, doc.notes[i].measure, doc.notes[i].staff).value;
    if sel.Some? then Bound(sel.value) else HeldSig(doc, t, i)
  }

  /** Before any note picks a signature, `sig` still holds what the
      collection loops left. */
  lemma {:induction false} HeldSigUntouched(doc: Document, t: KeyTables, n: nat)
    requires n <= |doc.notes| && DistinctKeys(t.perMeasure)
    ensures (forall j :: 0 <= j < n ==> !SetsSig(doc, t, j)) ==> HeldSig(doc, t, n) == t.sig
  {
    if n > 0 && forall j :: 0 <= j < n ==> !SetsSig(doc, t, j) {
      HeldSigUntouched(doc, t, n - 1);
    }
  }

  /** Without per-measure entries no note picks a signature, so every note
      sees the value the collection loops left. */
  lemma HeldSigWithoutMeasureKeys(doc: Document, t: KeyTables, n: nat)
    requires n <= |doc.notes| && DistinctKeys(t.perMeasure) && |t.perMeasure| == 0
    ensures HeldSig(doc, t, n) == t.sig
  {
    forall j | 0 <= j < n ensures !SetsSig(doc, t, j) {
      SelectKeySignatureCases(t, doc.notes[j].measure, doc.notes[j].staff);
    }
    HeldSigUntouched(doc, t, n);
  }

  /** Otherwise `sig` holds the signature picked by the latest earlier note
      that picked one. */
  lemma {:induction false} HeldSigLatest(doc: Document, t: KeyTables, n: nat, j: nat)
    requires j < n <= |doc.notes| && DistinctKeys(t.perMeasure)
    requires SetsSig(doc, t, j) && forall l :: j < l < n ==> !SetsSig(doc, t, l)
    ensures HeldSig(doc, t, n) == Bound(SelectKeySignature(t, doc.notes[j].measure, doc.notes[j].staff).value.value)
  {
    if j < n - 1 {
      HeldSigLatest(doc, t, n - 1, j);
    }
  }

  // -------------------------------------------------------------- key table

  /** A key-signature token read by its meaning. */
  datatype KeyToken = NoAccidentals | Sharps(count: nat) | Flats(count: nat)

  /** The tokens the current renderer accepts, each with the number of sharps
      or flats it denotes. */
  const TokenMeaning: map<string, KeyToken> := map[
    "0" := NoAccidentals,
    "1s" := Sharps(1), "2s" := Sharps(2), "3s" := Sharps(3), "4s" := Sharps(4),
    "5s" := Sharps(5), "6s" := Sharps(6), "7s" := Sharps(7),
    "1f" := Flats(1), "2f" := Flats(2), "3f" := Flats(3), "4f" := Flats(4),
    "5f" := Flats(5), "6f" := Flats(6), "7f" := Flats(7)]

  /** The order in which a key signature adds sharps, and flats. */
  const SharpOrder: seq<Letter> := [F, C, G, D, A, E, B]
  const FlatOrder: seq<Letter> := [B, E, A, D, G, C, F]

  /** The signature values the current renderer accepts: exactly the keys
      of `TokenMeaning` (see `TokenDomain`). */
  predicate IsToken(sig: string) {
    sig == "0"
    || sig == "1s" || sig == "2s" || sig == "3s" || sig == "4s" || sig == "5s" || sig == "6s" || sig == "7s"
    || sig == "1f" || sig == "2f" || sig == "3f" || sig == "4f" || sig == "5f" || sig == "6f" || sig == "7f"
  }

  lemma TokenDomain(sig: string)
    ensures IsToken(sig) <==> sig in TokenMeaning
  {
  }

  /** The current renderer's table: the accidental a signature gives a letter;
      every value that is not an accepted token, an absent one included,
      gives nothing. `KeyAccidentalFollowsFifths` states what each token
      gives. */
  function KeyAccidental(sig: Option<string>, letter: Letter): (r: string)
    ensures r == "" || r == "s" || r == "f"
    ensures sig.None? || !IsToken(sig.value) ==> r == ""
  {
    if sig == Some("0") then ""
    else if sig == Some("1s") && letter == F then "s"
    else if sig == Some("2s") && (letter == C || letter == F) then "s"
    else if sig == Some("3s") && (letter == C || letter == F || letter == G) then "s"
    else if sig == Some("4s") && (letter == C || letter == D || letter == F || letter == G) then "s"
    else if sig == Some("5s") && letter != B && letter != E then "s"
    else if sig == Some("6s") && letter != B then "s"
    else if sig == Some("7s") then "s"
    else if sig == Some("1f") && letter == B then "f"
    else if sig == Some("2f") && (letter == B || letter == E) then "f"
    else if sig == Some("3f") && (letter == A || letter == B || letter == E) then "f"
    else if sig == Some("4f") && (letter == A || letter == B || letter == D || letter == E) then "f"
    else if sig == Some("5f") && letter != C && letter != F then "f"
    else if sig == Some("6f") && letter != F then "f"
    else if sig == Some("7f") then "f"
    else ""
  }

  /** The table agrees with the circle of fifths: "Ns" sharpens the first N
      of F C G D A E B, "Nf" flattens the first N of B E A D G C F, "0" gives
      nothing. */
  lemma KeyAccidentalFollowsFifths(sig: string, letter: Letter)
    requires sig in TokenMeaning
    ensures TokenMeaning[sig].NoAccidentals? ==> KeyAccidental(Some(sig), letter) == ""
    ensures TokenMeaning[sig].Sharps? ==> var n := TokenMeaning[sig].count;
      n <= 7 && (KeyAccidental(Some(sig), letter) == "s" <==> letter in SharpOrder[..n])
      && KeyAccidental(Some(sig), letter) != "f"
    ensures TokenMeaning[sig].Flats? ==> var n := TokenMeaning[sig].count;
      n <= 7 && (KeyAccidental(Some(sig), letter) == "f" <==> letter in FlatOrder[..n])
      && KeyAccidental(Some(sig), letter) != "s"
  {
    if sig == "0" {
    } else if TokenMeaning[sig].Sharps? {
      SharpsFollowFifths(sig, letter);
    } else {
      FlatsFollowFifths(sig, letter);
    }
  }

  lemma SharpsFollowFifths(sig: string, letter: Letter)
    requires sig in TokenMeaning && TokenMeaning[sig].Sharps?
    ensures var n := TokenMeaning[sig].count;
      n <= 7 && (KeyAccidental(Some(sig), letter) == "s" <==> letter in SharpOrder[..n])
      && KeyAccidental(Some(sig), letter) != "f"
  {
    SharpsByRank(sig, letter);
    RankedPrefix(SharpOrder, SharpRank, TokenMeaning[sig].count, letter);
  }

  lemma FlatsFollowFifths(sig: string, letter: Letter)
    requires sig in TokenMeaning && TokenMeaning[sig].Flats?
    ensures var n := TokenMeaning[sig].count;
      n <= 7 && (KeyAccidental(Some(sig), letter) == "f" <==> letter in FlatOrder[..n])
      && KeyAccidental(Some(sig), letter) != "s"
  {
    FlatsByRank(sig, letter);
    RankedPrefix(FlatOrder, FlatRank, TokenMeaning[sig].count, letter);
  }

  /** A letter's position in the order sharps are added, and flats. */
  function SharpRank(x: Letter): nat {
    match x
    case F => 0 case C => 1 case G => 2 case D => 3 case A => 4 case E => 5 case B => 6
  }

  function FlatRank(x: Letter): nat {
    match x
    case B => 0 case E => 1 case A => 2 case D => 3 case G => 4 case C => 5 case F => 6
  }

  lemma SharpsByRank(sig: string, letter: Letter)
    requires sig in TokenMeaning && TokenMeaning[sig].Sharps?
    ensures var n := TokenMeaning[sig].count;
      n <= 7 && (KeyAccidental(Some(sig), letter) == "s" <==> SharpRank(letter) < n)
      && KeyAccidental(Some(sig), letter) != "f"
  {
  }

  lemma FlatsByRank(sig: string, letter: Letter)
    requires sig in TokenMeaning && TokenMeaning[sig].Flats?
    ensures var n := TokenMeaning[sig].count;
      n <= 7 && (KeyAccidental(Some(sig), letter) == "f" <==> FlatRank(letter) < n)
      && KeyAccidental(Some(sig), letter) != "s"
  {
  }

  /** In an order listing every letter once, at its rank, the first `n`
      entries are the letters ranked below `n`. */
  lemma RankedPrefix(order: seq<Letter>, rank: Letter -> nat, n: nat, letter: Letter)
    requires |order| == 7 && n <= 7
    requires forall k :: 0 <= k < 7 ==> rank(order[k]) == k
    requires rank(letter) < 7 && order[rank(letter)] == letter
    ensures letter in order[..n] <==> rank(letter) < n
  {
    if rank(letter) < n {
      assert order[..n][rank(letter)] == letter;
    }
  }

  lemma OrderPrefixes()
    ensures SharpOrder[..1] == [F] && SharpOrder[..2] == [F, C] && SharpOrder[..3] == [F, C, G]
    ensures SharpOrder[..4] == [F, C, G, D] && SharpOrder[..5] == [F, C, G, D, A]
    ensures SharpOrder[..6] == [F, C, G, D, A, E] && SharpOrder[..7] == SharpOrder
    ensures FlatOrder[..1] == [B] && FlatOrder[..2] == [B, E] && FlatOrder[..3] == [B, E, A]
    ensures FlatOrder[..4] == [B, E, A, D] && FlatOrder[..5] == [B, E, A, D, G]
    ensures FlatOrder[..6] == [B, E, A, D, G, C] && FlatOrder[..7] == FlatOrder
  {
  }

  /** More sharps never unsharpen a letter, and more flats never unflatten one. */
  lemma KeyAccidentalMonotonic(fewer: string, more: string, letter: Letter)
    requires fewer in TokenMeaning && more in TokenMeaning
    requires TokenMeaning[fewer].Sharps? == TokenMeaning[more].Sharps?
    requires TokenMeaning[fewer].Flats? == TokenMeaning[more].Flats?
    requires !TokenMeaning[fewer].NoAccidentals? && !TokenMeaning[more].NoAccidentals?
    requires TokenMeaning[fewer].count <= TokenMeaning[more].count
    ensures KeyAccidental(Some(fewer), letter) != "" ==>
      KeyAccidental(Some(more), letter) == KeyAccidental(Some(fewer), letter)
  {
    KeyAccidentalFollowsFifths(fewer, letter);
    KeyAccidentalFollowsFifths(more, letter);
    var n, m := TokenMeaning[fewer].count, TokenMeaning[more].count;
    assert SharpOrder[..n] <= SharpOrder[..m];
    assert FlatOrder[..n] <= FlatOrder[..m];
  }
}
