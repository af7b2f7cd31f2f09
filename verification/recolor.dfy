/** The current renderer's per-note glyph decision: a note's label title is
    split into its spelling and duration, the spelling is reduced to a pitch
    class, and the notehead is either pointed at one of the generated square
    symbols or painted in the pitch class's colour. */
module Recolor {
  import opened Common
  import opened Score
  import opened Pitch
  import opened Glyph
  import opened Labelling

  /** The ids `add_symbols_to_defs` appends to the page's `<defs>`. */
  function DefinedSymbols(): (r: seq<string>)
    ensures |r| == 6 * |SquarePitches|
  {
    SymbolIds(SquarePitches)
  }

  /** `render_note_to_colormusic` for one note, given its label title, its
      notehead group, its own stem and its enclosing chord. A title that does
      not split into two parts at ':', a spelling `simplify_pitch` rejects, a
      missing notehead, and (for square pitches) a notehead without `<use>`
      all abort the rendering. A square pitch's href always names a symbol
      that is defined, and a circle pitch's colour lookup never misses. */
  function RenderNote(title: string, notehead: Option<NoteheadGroup>, own: Option<Stem>, chord: Option<ChordGlyph>): (r: Result<GlyphPatch>)
    ensures SplitOnColon(title).None? ==> r == Err(MalformedLabel)
    ensures SplitOnColon(title).Some? && SimplifyPitch(SplitOnColon(title).value.0).Err? ==> r == Err(UnknownPitch)
    ensures r.Err? ==> r.error in {MalformedLabel, UnknownPitch, MissingNotehead, MissingUse}
    ensures r.Ok? ==> notehead.Some?
    ensures r.Ok? && r.value.Resymbol? ==>
      |r.value.href| > 0 && r.value.href[0] == '#' && r.value.href[1..] in DefinedSymbols()
    ensures r.Ok? && r.value.Repaint? ==>
      r.value.stroke == "Black" && r.value.strokeWidth == "20" && r.value.fill != ""
  {
    match SplitOnColon(title)
    case None => Err(MalformedLabel)
    case Some((spelling, dur)) =>
      var pitch :- SimplifyPitch(spelling);
      var dir := StemDirection(own, chord);
      if pitch in SquarePitches then
        if notehead.None? then Err(MissingNotehead)
        else if !notehead.value.hasUse then Err(MissingUse)
        else
          var id := SymbolId(pitch, NoteheadStyle(dur), dir);
          SquareSymbolDefined(pitch, NoteheadStyle(dur), dir);
          Ok(Resymbol("#" + id))
      else
        ChromaticColoured(pitch);
        if pitch !in PitchColors then Err(UnknownColour)
        else if notehead.None? then Err(MissingNotehead)
        else
          StrokeWidthText();
          Ok(Repaint(PitchColors[pitch], "Black", NatText(StrokeWidth)))
  }

  /** Every square spelling has all six of its symbols defined. */
  lemma SquareSymbolDefined(pitch: string, style: Style, dir: Direction)
    requires pitch in SquarePitches
    ensures SymbolId(pitch, style, dir) in DefinedSymbols()
  {
    var i :| 0 <= i < |SquarePitches| && SquarePitches[i] == pitch;
    SymbolIdsCover(SquarePitches, i, style, dir);
  }

  /** Every reduced pitch class has a non-empty colour. */
  lemma ChromaticColoured(pitch: string)
    requires pitch in ChromaticScale
    ensures pitch in PitchColors && PitchColors[pitch] != ""
  {
    ChromaticTables();
  }

  /** The pitch class a label names, independently of the reduction loop:
      its letter's position in the chromatic scale moved up one per `s` and
      down one per `f`, modulo 12. */
  function PitchClass(l: Label): (r: nat)
    ensures r < 12
  {
    (NaturalIndex(LetterChar(l.letter)).value + Count('s', l.accid) - Count('f', l.accid)) % 12
  }

  /** A written label, read back from its title, always renders: the title
      splits back into the label's prefix and duration, the prefix reduces to
      the label's pitch class, a square class gets the symbol for its style
      and stem direction, and any other class is painted its colour. */
  lemma LabelRenders(l: Label, notehead: NoteheadGroup, own: Option<Stem>, chord: Option<ChordGlyph>)
    requires ModernAccid(l.accid)
    requires ':' !in l.dur
    requires notehead.hasUse
    ensures var r, p := RenderNote(LabelText(l), Some(notehead), own, chord), ChromaticScale[PitchClass(l)];
      && r.Ok?
      && (p in SquarePitches ==> r.value == Resymbol("#" + SymbolId(p, NoteheadStyle(l.dur), StemDirection(own, chord))))
      && (p !in SquarePitches ==> r.value == Repaint(PitchColors[p], "Black", "20"))
  {
    LabelPitch(l);
    var p := ChromaticScale[PitchClass(l)];
    if p !in SquarePitches {
      StrokeWidthText();
      ChromaticColoured(p);
    }
  }

  /** A label's title splits back into its prefix and duration, and the
      prefix reduces to the label's pitch class. */
  lemma LabelPitch(l: Label)
    requires ModernAccid(l.accid)
    requires ':' !in l.dur
    ensures SplitOnColon(LabelText(l)) == Some((LabelPrefix(l), l.dur))
    ensures SimplifyPitch(LabelPrefix(l)) == Ok(ChromaticScale[PitchClass(l)])
  {
    var prefix := LabelPrefix(l);
    assert ':' !in prefix by {
      ModernAccidNoColon(l.accid);
    }
    SplitOnColonJoin(prefix, l.dur);
    FlatsOfModernAccid(l.accid);
    PrefixReduces(l);
  }

  lemma PrefixReduces(l: Label)
    requires Count('f', l.accid) <= 12
    ensures SimplifyPitch(LabelPrefix(l)) == Ok(ChromaticScale[PitchClass(l)])
  {
    LetterIndexed(l.letter);
    assert LabelPrefix(l) == [LetterChar(l.letter)] + l.accid;
    SpellingReduces(LetterChar(l.letter), l.accid);
  }

  lemma LetterIndexed(x: Letter)
    ensures NaturalIndex(LetterChar(x)).Some?
  {
    match x
    case A => case B => case C => case D => case E => case F => case G =>
  }

  lemma SpellingReduces(c: char, a: string)
    requires NaturalIndex(c).Some? && Count('f', a) <= 12
    ensures SimplifyPitch([c] + a) == Ok(ChromaticScale[(NaturalIndex(c).value + Count('s', a) - Count('f', a)) % 12])
  {
    var spelling := [c] + a;
    assert spelling[0] == c && spelling[1..] == a;
    SimplifyPitchModular(spelling);
  }

  lemma ModernAccidNoColon(a: string)
    requires ModernAccid(a)
    ensures ':' !in a
  {
  }

  lemma FlatsOfModernAccid(a: string)
    requires ModernAccid(a)
    ensures Count('f', a) <= 2
  {
    if a == "ff" {
      assert Count('f', a) == 1 + Count('f', "f");
    } else if a == "ss" {
      assert Count('f', a) == Count('f', "s");
    }
  }

  /** Every note the labelling labels renders without error, provided its
      duration holds no ':' and its notehead carries its `<use>`. */
  lemma LabelledNoteRenders(doc: Document, ls: seq<Label>, i: nat, own: Option<Stem>, chord: Option<ChordGlyph>)
    requires LabelNotes(doc) == Ok(ls)
    requires i < |ls| && ':' !in ls[i].dur
    ensures RenderNote(LabelText(ls[i]), Some(NoteheadGroup(true)), own, chord).Ok?
  {
    assert WellFormed(ls);
    LabelRenders(ls[i], NoteheadGroup(true), own, chord);
  }
}
