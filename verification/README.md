# ColorMusic note labelling and recolouring, modelled in Dafny

The ColorMusic renderer turns an MEI score into a page of SVG in which every
notehead shows its pitch class. A square or a coloured circle shows the
class, and the outline tells open noteheads from filled ones. The renderer
works in two passes:

1. `label_notes` walks the MEI notes in document order. It writes a
   `{LETTER}{accid}:{dur}` label onto each note. The accidental comes from
   four sources, in this order:
   - the note's explicit gestural or visible accidental;
   - a visible accidental recalled from an earlier note with the same
     measure, letter and octave;
   - a natural, which is written as nothing;
   - the key signature in force. That key signature comes from per-staff and
     per-measure tables, selected by a measure-range loop.

   A tie continuation copies the label of its tie start.
2. After Verovio renders the labelled MEI, `render_note_to_colormusic` reads
   each label back from the note's title. It splits the label at `:` and
   reduces the spelling to one of twelve pitch classes (`simplify_pitch`).
   Then it does one of two things:
   - for the six square classes, it points the notehead's `<use>` at one of
     the symbols `add_symbols_to_defs` generated, choosing by notehead
     style (open for whole and half notes) and stem direction;
   - for the other classes, it paints the notehead in the class's colour.

   `reorder_note` moves the stem in front of the notehead so that the
   notehead is drawn on top. `render` falls back from the user's title to the
   score's title to "Unknown".

The project models two versions of this logic:

- the current renderer, `render-service/app/renderer.py`. Its labels use
  `s`/`f`. It has the full seven-sharp/seven-flat key table and a
  `simplify_pitch` reduction;
- the older renderer, `app/renderer.py`. Its labels use `#`/`b`. It has a
  reduced key table, it copies a tie start's whole label (duration
  included), and it looks the spelling up in its tables verbatim.

Modules:

- `Common`: `Option`/`Result`, the failure taxonomy (one constructor per
  exception the code can raise), and helpers for colon splitting, `#`
  removal, insertion-ordered dicts and sorting.
- `Score`: the MEI records the labelling reads. It also holds the `ties`
  dict, the first-note-with-id lookup, durations and the label text.
- `Accidentals`: which explicit accidental a note carries, and the memory of
  visible accidentals keyed by measure, letter and octave. A fold-free
  reference definition, `LastVisible`, states that memory independently.
- `KeySignature`: the two collection loops, the per-measure selection
  (including the stale `sig` variable it relies on), and the modern
  key-signature table. That table is proved equal to the circle of fifths.
- `Labelling`: the current `label_notes`, as a left fold over the notes.
- `Pitch`: the chromatic scale, the colour and square tables, and
  `simplify_pitch`.
- `Glyph`: what both renderers share:
  - the stem direction;
  - Python `int()` on a duration, and the open/filled choice;
  - the symbol ids;
  - `reorder_note` on a child list.
- `Recolor`: the current `render_note_to_colormusic`.
- `Legacy`: the older renderer's labelling and rendering, with lemmas
  relating it to the current one.
- `Page`: the title fallback in `render`.

Python behaviour is modelled explicitly:

- An exception the code raises on the inputs the model takes is an `Err`.
  Its constructor names the failing step. The crashes listed under
  "Left out" come from inputs the model does not take.
- A bs4 `Tag` is always truthy. Attribute values use Python string
  truthiness.
- Writes to a `dict` are last-wins.
- `f"{None}"` prints `None`.
- `sig` is a local variable that may be unbound, or may hold a value left
  over from an earlier note or from the collection loops. It is modelled as
  `SigVar = Unbound | Bound(Option<string>)` and threaded through the fold.

## Model

| member | source | states |
|---|---|---|
| Common.SplitOnColon | render-service/app/renderer.py:310 | when the title unpacks into two parts, they are the text before and after its single ':' and neither contains ':' |
| Common.SplitOnColonJoin | render-service/app/renderer.py:294 | a label built as prefix ':' duration, neither holding ':', unpacks back into exactly that prefix and duration, and `split(":")[0]` gives the prefix |
| Common.BeforeColon | render-service/app/renderer.py:133 | `split(":")[0]` is the longest ':'-free prefix of the text and stops just before the first ':' |
| Common.RemoveHashChars | render-service/app/renderer.py:109-110 | removing '#' keeps exactly the characters other than '#', never lengthens the id, and leaves an id without '#' unchanged |
| Common.RemoveHashAppend | render-service/app/renderer.py:109-110 | removing '#' works character by character: it distributes over concatenation, deletes a lone '#' and keeps any other character |
| Common.Put | render-service/app/renderer.py:95 | a dict write leaves keys distinct, makes the key map to the new value and leaves every other key's value unchanged |
| Common.Sort | render-service/app/renderer.py:155 | `sorted` of distinct measure numbers is strictly increasing and holds exactly the same numbers |
| Score.LabelPrefixRecovered | render-service/app/renderer.py:133 | the part of a written label before ':' is the letter followed by the accidental |
| Score.CopiedLabelText | render-service/app/renderer.py:133-135 | a continuation's label text is the start's label up to ':' followed by the continuation's own duration |
| Score.TieMapKeys | render-service/app/renderer.py:107-112 | the ties dict has an entry exactly for each tie end id with '#' removed |
| Score.TieLastWins | render-service/app/renderer.py:112 | among ties sharing an end id, the last one in document order decides the start id |
| Score.TieStart | render-service/app/renderer.py:126-129 | a note is treated as a tie continuation exactly when its id is a tie end with a non-empty start id, and that start id is used |
| Score.FirstNoteWithId | render-service/app/renderer.py:130 | the lookup returns the first note in document order with the id, or reports that none carries it |
| Score.NoteDuration | render-service/app/renderer.py:118-123 | the note's own dur if present, otherwise the enclosing chord's dur printed as text; a note with neither aborts |
| Accidentals.PickAccid | render-service/app/renderer.py:162-186 | a truthy `accid.ges` wins over a truthy `accid`, taken from the `<accid>` child when there is one and from the note otherwise; no name exactly when no value |
| Accidentals.Remember | render-service/app/renderer.py:188-193 | a visible accidental is stored under its key and used; a gestural one is used without storing; with neither, the remembered value (or nothing) is used |
| Accidentals.MemoryUpToTracks | render-service/app/renderer.py:114-193 | after n notes the memory holds, for every key, the last visible accidental written under it (fold-free reference) |
| Accidentals.LastVisibleAbsent | render-service/app/renderer.py:189-193 | nothing is remembered for a key exactly when no earlier note wrote a visible accidental under it |
| Accidentals.LastVisibleLatest | render-service/app/renderer.py:189-193 | a remembered value was written by an earlier note with the same measure, letter and octave, and no later note overwrote it |
| KeySignature.CollectKeySigs | render-service/app/renderer.py:74-95 | the `<keySig>` loop succeeds iff every staff-level one has a clef; per-staff keys are exactly the staves seen, each with a mode; `sig` is left holding the last one's value |
| KeySignature.StaffDefFallback | render-service/app/renderer.py:97-105 | the `<staffDef>` loop adds exactly the staves with truthy `n` and `keysig`, without a mode, leaves the per-measure table alone, and leaves `sig` holding the last staffDef's keysig |
| KeySignature.BuildKeyTables | render-service/app/renderer.py:74-105 | building the tables fails exactly when a staff-level keySig lacks a clef |
| KeySignature.CollectKeySigsEntries | render-service/app/renderer.py:74-95 | a staff's entry holds the sig and mode (default "major") of the last staff-level keySig of that staff; a measure's entry those of the last score-level keySig whose next measure it is |
| KeySignature.CollectKeySigsMeasures | render-service/app/renderer.py:89-95 | the per-measure table has an entry for a measure exactly when some score-level keySig has it as its next measure |
| KeySignature.StaffDefFallbackEntries | render-service/app/renderer.py:97-105 | a staff's fallback entry holds the keysig of the last staffDef with that `n` and a truthy keysig, without a mode |
| KeySignature.StaffKeySigsPresent | render-service/app/renderer.py:97 | the per-staff table is empty, so the staffDef loop runs, exactly when no keySig is staff-level |
| KeySignature.BuildKeyTablesEntries | render-service/app/renderer.py:74-95 | the final tables hold, per measure and per staff, the entry of the last matching keySig |
| KeySignature.BuildKeyTablesFallback | render-service/app/renderer.py:74-105 | without staff-level keySigs each staff's entry comes from its last usable staffDef; `sig` is left holding the last staffDef's keysig when that loop ran, else the last keySig's value, else nothing |
| KeySignature.MeasureKeys | render-service/app/renderer.py:155 | the sorted per-measure keys are strictly increasing and are exactly the keys of the table |
| KeySignature.RangeIndex | render-service/app/renderer.py:157-158 | the range loop finds an i with keys[i] <= measure < keys[i+1], or there is none |
| KeySignature.SelectKeySignatureCases | render-service/app/renderer.py:143-160 | before the first per-measure key, the staff's entry is used (or it aborts); a single per-measure entry applies from its measure on; otherwise the greatest key at or before the measure, but no assignment at or after the last key |
| KeySignature.TokenDomain | render-service/app/renderer.py:211-212 | the accepted key signature tokens are exactly "0", "1s".."7s" and "1f".."7f" |
| KeySignature.HeldSigUntouched | render-service/app/renderer.py:143-160 | until some note assigns `sig` in the selection, it holds what the collection loops left |
| KeySignature.HeldSigWithoutMeasureKeys | render-service/app/renderer.py:143-160 | without per-measure entries no note assigns `sig`, so every note sees the value the collection loops left |
| KeySignature.HeldSigLatest | render-service/app/renderer.py:143-160 | otherwise `sig` holds the signature selected by the latest earlier plain note whose selection assigned it |
| KeySignature.KeyAccidental | render-service/app/renderer.py:215-291 | the key table yields "", "s" or "f", and "" for an absent or unaccepted signature |
| KeySignature.KeyAccidentalFollowsFifths | render-service/app/renderer.py:215-291 | with n sharps a letter is sharpened exactly when it is among the first n of F C G D A E B; with n flats, flattened exactly when among the first n of B E A D G C F; "0" changes nothing |
| KeySignature.KeyAccidentalMonotonic | render-service/app/renderer.py:215-291 | a letter altered by a key signature stays altered by every key with more accidentals of the same kind |
| Labelling.ResolveAccid | render-service/app/renderer.py:195-213 | the result is one of "", "s", "ss", "f", "ff"; it fails exactly when the value is not a sharp, flat or natural and `sig` is unassigned (UnboundLocalError) or truthy and not an accepted token (ValueError naming it) |
| Labelling.LabelNotes | render-service/app/renderer.py:68-295 | labelling produces one label per note, each with one of the five accidental spellings |
| Labelling.LabelUpToPrefix | render-service/app/renderer.py:115-135 | labels written for earlier notes are never changed by later ones |
| Labelling.LabelUpToSig | render-service/app/renderer.py:74-160 | the `sig` the fold holds after n notes is the fold-free reference `HeldSig` |
| Labelling.LabelUpToErrSticks | render-service/app/renderer.py:114-135 | an exception at one note ends the labelling with that exception |
| Labelling.PlainStepResolve | render-service/app/renderer.py:137-294 | with the reference memory and `sig`, a plain step writes what `ResolveAccid` gives for the note's effective value and signature, or raises its error |
| Labelling.ResolveFailureAborts | render-service/app/renderer.py:209-212 | a plain note the labelling reaches whose accidental falls to an unassigned `sig` or an unaccepted truthy one makes `label_notes` raise that error |
| Labelling.MemoryIsLastVisible | render-service/app/renderer.py:114-193 | the fold's memory after n notes agrees, key by key, with the reference `LastVisible` |
| Labelling.TieContinuationLabel | render-service/app/renderer.py:125-135 | a tie continuation's tie start is an earlier note; the continuation gets the start's letter and accidental with its own duration, and its text is the start's text up to ':' then ':' and its own duration |
| Labelling.PlainStepSig | render-service/app/renderer.py:143-160 | a plain step assigns `sig` exactly when its selection picks a signature |
| Labelling.PlainStepLabel | render-service/app/renderer.py:137-294 | one plain step writes the note's letter and duration and an accidental that follows the priority, given a memory equal to the reference |
| Labelling.PlainNoteLabel | render-service/app/renderer.py:137-294 | every other note is labelled with its own letter and duration, and its accidental follows the priority: explicit or remembered sharps and flats verbatim, a natural as nothing, else the key signature selected for its measure and staff or, when none is selected, the reference `HeldSig` before it; the accidental is exactly what `ResolveAccid` gives |
| Pitch.NaturalIndex | render-service/app/renderer.py:53 | a spelling's first character is found in the chromatic scale exactly when it is a natural name, and its index names it |
| Pitch.SimplifyPitch | render-service/app/renderer.py:51-65 | the reduction yields a name from the chromatic scale, and fails when the spelling is empty or does not start with a natural name |
| Pitch.WalkModular | render-service/app/renderer.py:55-63 | the stepwise walk with its single upper wrap stays below 12, and is congruent mod 12 to the start plus sharps minus flats |
| Pitch.SimplifyPitchModular | render-service/app/renderer.py:51-65 | with at most 12 flats the result is the scale entry at (index + sharps - flats) mod 12 |
| Pitch.ThirteenFlatsFail | render-service/app/renderer.py:65 | single example: thirteen flats on C index below -12 and abort |
| Pitch.EnharmonicExamples | render-service/app/renderer.py:51-65 | single example: double and enharmonic spellings reduce: B sharp to C, C double flat to B flat, F double sharp to G |
| Pitch.CFlatReduction | render-service/app/renderer.py:65 | single example: C flat reduces to B through Python's negative indexing |
| Pitch.EnharmonicColours | render-service/app/renderer.py:20-33 | enharmonic spellings share a colour |
| Pitch.BlackKeyShapes | render-service/app/renderer.py:36-41 | sharp and flat spellings of the same black key are both square or both round |
| Pitch.ChromaticTables | render-service/app/renderer.py:16-41 | every reduced class has a colour; exactly A flat, B flat, C, D, E and G flat of the scale are square; every square spelling has a colour |
| Glyph.EffectiveStem | render-service/app/renderer.py:314-318 | the note's own stem is used, else the enclosing chord's, else none |
| Glyph.StemDirection | render-service/app/renderer.py:320-329 | no stem gives "no-stem"; otherwise "up" exactly when the stem's end lies above its start (y2 < y1), else "down" |
| Glyph.ParseIntOfText | render-service/app/renderer.py:336 | `int()` reads back every decimal numeral and its negation |
| Glyph.NoteheadStyle | render-service/app/renderer.py:335-340 | the notehead is open exactly when the duration parses as a non-zero integer at most 2 |
| Glyph.StyleOfDuration | render-service/app/renderer.py:335-340 | for numeric durations the notehead is open exactly for 1 and 2 |
| Glyph.StyleOfWords | render-service/app/renderer.py:337-340 | single example: a word such as "breve", or "None" printed for a missing duration, gives a filled notehead |
| Glyph.StyleOfNegative | render-service/app/renderer.py:340 | single example: a negative duration passes the `<= 2` test and gives an open notehead |
| Glyph.SymbolIds | render-service/app/renderer.py:354-424 | six symbols are generated per square pitch |
| Glyph.SymbolIdsCover | render-service/app/renderer.py:361-424 | every (pitch, style, direction) combination of a square pitch has its symbol generated |
| Glyph.SymbolIdInjective | render-service/app/renderer.py:343-347 | an href determines its pitch, style and direction |
| Glyph.SymbolIdsDistinct | render-service/app/renderer.py:361-424 | the generated symbol ids are pairwise distinct |
| Glyph.StrokeWidthText | render-service/app/renderer.py:13 | single example: the stroke width attribute reads "20" |
| Glyph.FirstNotehead | render-service/app/renderer.py:300 | `find` returns the first notehead child, or none exists |
| Glyph.FirstStem | render-service/app/renderer.py:301 | `find` returns the first stem child, or none exists |
| Glyph.ReorderNote | render-service/app/renderer.py:298-304 | without a notehead or a stem the children are left alone |
| Glyph.ReorderPermutes | render-service/app/renderer.py:298-304 | reordering only permutes the children |
| Glyph.ReorderMovesStem | render-service/app/renderer.py:298-304 | afterwards the stem sits right before the notehead; when it did not already, it was moved there and every other child keeps its order |
| Glyph.ReorderIdempotent | render-service/app/renderer.py:298-304 | with at most one stem, reordering twice is reordering once |
| Glyph.ReorderTwoStemsAlternates | render-service/app/renderer.py:298-304 | with two stems before the notehead, each call swaps them, so reordering is not idempotent in general |
| Recolor.RenderNote | render-service/app/renderer.py:307-351 | a malformed title or unknown spelling aborts; a square class's href names a defined symbol; any other class is painted with a black 20-wide stroke |
| Recolor.SquareSymbolDefined | render-service/app/renderer.py:343-347 | every href the square branch can write names a symbol that `add_symbols_to_defs` generated |
| Recolor.ChromaticColoured | render-service/app/renderer.py:349 | the colour lookup for a reduced class never misses and is non-empty |
| Recolor.LabelPitch | render-service/app/renderer.py:294 | a written label's title splits back into its prefix and duration, and the prefix reduces to the label's pitch class |
| Recolor.LabelRenders | render-service/app/renderer.py:307-351 | a written label renders: as the symbol for its class, style and stem direction if square, else painted its class colour |
| Recolor.LabelledNoteRenders | render-service/app/renderer.py:610-612 | every note the labelling labels renders without error when its duration has no ':' and its notehead has a `<use>` |
| Legacy.Respelled | app/renderer.py:163-168 | the older spelling maps '#' to 's' and 'b' to 'f' and leaves others alone |
| Legacy.LegacyKeyAccidental | app/renderer.py:173-209 | the older key table yields "", "#" or "b", and "" for any signature outside its seven tokens ("0", "1s" to "4s", "1f", "4f") |
| Legacy.LegacyTableAgrees | app/renderer.py:173-209 | on the older table's tokens, respelling its answer gives the current table's answer |
| Legacy.LegacyIgnoresTwoFlats | app/renderer.py:198-209 | single example: the older table leaves B natural under "2f", where the current one flattens it |
| Legacy.LegacyResolve | app/renderer.py:163-209 | "s" gives "#", "f" gives "b", "n" gives nothing; otherwise the key table, which aborts exactly when `sig` was never assigned |
| Legacy.LegacyDropsDoubleSharp | app/renderer.py:163-209 | single example: an explicit double sharp falls through to the key table and is lost |
| Legacy.LegacyLabelNotes | app/renderer.py:46-218 | the older labelling produces one entry per note, each label with "", "#" or "b" |
| Legacy.LegacyPlainStepSig | app/renderer.py:111-128 | an older plain step assigns `sig` exactly when its selection picks a signature |
| Legacy.LegacyMemoryIsLastVisible | app/renderer.py:92-161 | the older fold's memory agrees with the same reference as the current one |
| Legacy.LegacyTieCopiesLabel | app/renderer.py:96-102 | a tie continuation carries the start's whole label, its duration included, when the start is earlier, and no label otherwise |
| Legacy.LegacyUpToSig | app/renderer.py:52-128 | the `sig` the older fold holds after n notes is the same reference `HeldSig` |
| Legacy.LegacyPlainNoteLabel | app/renderer.py:103-217 | every other note gets its own letter and duration (or its chord's), and an accidental following the older priority with the reference `HeldSig`, exactly what `LegacyResolve` gives |
| Legacy.LegacyRenderNote | app/renderer.py:229-272 | a malformed title aborts; a circle pitch is painted its table colour with a black 20-wide stroke |
| Legacy.LegacyRenderOutcome | app/renderer.py:229-272 | the rendering aborts only for a malformed title, a missing notehead or `<use>`, or a colour miss, and a colour miss happens exactly for a pitch in neither table |
| Legacy.LegacyHrefDefined | app/renderer.py:252-268 | a square pitch's href names one of the symbols generated from the older square table |
| Legacy.LegacySpellingAgrees | app/renderer.py:14-34 | each spelling the older labelling writes has a colour, and its colour and shape equal those of its current respelling |
| Legacy.LegacyShapesAgree | app/renderer.py:29-34 | the older and current square tables agree on every natural, sharp and flat spelling |
| Legacy.LegacyLabelRenders | app/renderer.py:229-272 | a label the older labelling writes always renders, exactly as its prefix selects |
| Page.PageTitle | render-service/app/renderer.py:572-577 | the title is never empty; a truthy user title wins; any title other than "Unknown" came from a truthy user or score title |
| Page.PageTitleIsFirstUsable | render-service/app/renderer.py:572-577 | the fallback picks the first truthy title of user then score, else "Unknown" |
| Page.PageTitleStable | render-service/app/renderer.py:572-577 | passing the chosen title back in as the user title keeps it, whatever the score says |
| Page.PlaceholderOnlyWhenMissing | render-service/app/renderer.py:572-577 | "Unknown" appears exactly when neither title is truthy, or when the chosen one literally reads "Unknown" |

## Left out

- Verovio, BeautifulSoup parsing and tree navigation, file and bucket I/O,
  PDF assembly, the logo, title and footer layout, `shift_svg_content`, and
  the opacity change on visible accidentals are not modelled. Their inputs
  are given as already-extracted records.
- `extract_score_title` is not part of this model. `render` uses only its
  result, which is a parameter of `Page.PageTitle`.
- The key signature `mode` is read but never affects a label. It is kept
  only where its absence raises a KeyError (`MissingStaffMode`).
- The clef shape is read and discarded. Only a missing `<clef>` in a
  staffDef is modelled, because it raises.
- The `<accid>` child is `note.find("accid")`, which searches all
  descendants. The model takes it as already found.
- `measure@n` is read as an integer. `int()` on a measure number that fails
  to parse is not modelled.
- Every note has a letter A–G. In the source a missing `pname` raises an
  AttributeError at `pname.upper()` in the memory key. An empty `pname`
  passes there but gets no label, because of `if pname:`. A `pname` such as
  "h" is labelled and then fails in `simplify_pitch`. None of these is
  modelled.
- The memory key is a structured triple rather than the `":::"`-joined
  string. The two are equivalent, since the measure and the letter never
  contain `:`.
- Glyph.NoteheadStyle: `ParseInt` follows `int()` on ASCII text only. Python
  also accepts Unicode digits and Unicode whitespace, so a duration such as
  "\u00a02" gives an open notehead in the source and a filled one here.
- A tie without `startid` or `endid` raises an AttributeError
  (render-service/app/renderer.py:109-110, app/renderer.py:86-87). The model
  takes both ids as strings.
- A note without `xml:id` is given the id "". The source looks up `None`,
  which matches no tie end. The two differ only when some tie's `endid` is
  empty once '#' is removed.
- A score-level `<keySig>` with no enclosing `<scoreDef>`, or with no
  following `<measure>`, raises (render-service/app/renderer.py:89-93). The
  model gives each score-level keySig its next measure number.
- A rendered note without a `<title class="labelAttr">` raises at
  render-service/app/renderer.py:310. The model takes the title text as
  given.
- `reorder_note` finds the notehead among all descendants but inserts the
  stem at its index among the direct children. A notehead that is not a
  direct child makes `note.contents.index` raise ValueError
  (render-service/app/renderer.py:304). The model takes the children as one
  flat list.
- The stem `<path>` is taken as its two endpoint y coordinates. The float
  parsing of `d`, and a stem without a path, are not modelled.
- `soup.find("note", ...)` scans the whole document. The model scans the
  note sequence, which holds every note in document order.
- The input notes carry no label before labelling. A tie start that comes
  later in the document therefore has none yet.
  - In the current renderer this aborts (`TieStartUnlabelled`).
  - In the older renderer the continuation gets no label.
- Glyph.ReorderIdempotent: stated only for a child list with at most one
  stem. With two stems before the notehead the calls alternate, as
  Glyph.ReorderTwoStemsAlternates shows.
- Pitch.SimplifyPitchModular: stated for at most 12 flats. Below that,
  Python's index goes past -12 and the lookup aborts, as
  Pitch.ThirteenFlatsFail shows.
- KeySignature.KeyAccidental: its contract states only the range. The table
  itself is stated by KeySignature.KeyAccidentalFollowsFifths.
- Legacy.LegacyRenderNote: its contract covers the malformed title and the
  painted case. The abort set and the href are stated by
  Legacy.LegacyRenderOutcome and Legacy.LegacyHrefDefined.
- Three facts of the code that the model keeps as they are:
  - the square table has eleven spellings, which make six pitch classes;
  - a missing notehead or `<use>` raises, so the rendering aborts;
  - the accidental memory is shared by all staves. Its key is measure,
    letter and octave only.
- The selection loop leaves `sig` untouched in two cases:
  - when there are no per-measure key signatures at all;
  - when there are two or more and the measure is at or after the last one.

  The model reproduces this exactly. The note then uses whatever `sig` last
  held: the previous note's selection, or the last value the collection
  loops assigned. It aborts with `UnboundSignature` when nothing was ever
  assigned. KeySignature.SelectKeySignatureCases states when this happens.
