/** The glyph-level decisions both renderers share: the stem direction of a
    note glyph, the open/filled notehead style read from a label's duration,
    the ids of the square-notehead symbols, and the reordering that draws the
    notehead on top of the stem. */
module Glyph {
  import opened Common

  // ------------------------------------------------------------------ stems

  /** A stem `<path>` reduced to the y coordinates of its two endpoints. */
  datatype Stem = Stem(y1: int, y2: int)

  /** The enclosing chord glyph of a note, reduced to its own stem if any. */
  datatype ChordGlyph = ChordGlyph(stem: Option<Stem>)

  datatype Direction = Up | Down | NoStem

  /** The text the direction contributes to a symbol id. */
  function DirectionText(d: Direction): string {
    match d
    case Up => "stem-up"
    case Down => "stem-down"
    case NoStem => "no-stem"
  }

  /** The stem that decides the direction: the note's own, else the chord's. */
  function EffectiveStem(own: Option<Stem>, chord: Option<ChordGlyph>): (r: Option<Stem>)
    ensures own.Some? ==> r == own
    ensures own.None? && chord.Some? ==> r == chord.value.stem
    ensures own.None? && chord.None? ==> r.None?
  {
    if own.None? && chord.Some? then chord.value.stem else own
  }

  /** Up when the stem's end lies above its start (SVG y grows downwards),
      down otherwise, and no stem when neither the note nor its chord has one. */
  function StemDirection(own: Option<Stem>, chord: Option<ChordGlyph>): (r: Direction)
    ensures r == NoStem <==> EffectiveStem(own, chord).None?
    ensures r == Up <==> EffectiveStem(own, chord).Some? && EffectiveStem(own, chord).value.y2 < EffectiveStem(own, chord).value.y1
  {
    match EffectiveStem(own, chord)
    case None => NoStem
    case Some(s) => if s.y2 < s.y1 then Up else Down
  }

  // ------------------------------------------------------- integer parsing

  predicate IsDigit(c: char) {
    '0' <= c <= '9'
  }

  predicate IsSpace(c: char) {
    c == ' ' || c == '\t' || c == '\n' || c == '\r' || c as int == 11 || c as int == 12
  }

  function TrimStart(s: string): (r: string)
    ensures |r| <= |s| && r == s[|s| - |r|..]
    ensures |r| > 0 ==> !IsSpace(r[0])
  {
    if |s| > 0 && IsSpace(s[0]) then TrimStart(s[1..]) else s
  }

  function TrimEnd(s: string): (r: string)
    ensures |r| <= |s| && r == s[..|r|]
    ensures |r| > 0 ==> !IsSpace(r[|r| - 1])
  {
    if |s| > 0 && IsSpace(s[|s| - 1]) then TrimEnd(s[..|s| - 1]) else s
  }

  /** Digits with single underscores between them, as `int()` accepts. */
  predicate DigitRun(s: string) {
    && |s| > 0 && IsDigit(s[0]) && IsDigit(s[|s| - 1])
    && (forall k :: 0 <= k < |s| ==> IsDigit(s[k]) || s[k] == '_')
    && (forall k :: 0 <= k < |s| - 1 ==> !(s[k] == '_' && s[k + 1] == '_'))
  }

  /** The value of a digit run, underscores skipped. */
  function DigitValue(s: string): nat
    decreases |s|
  {
    if |s| == 0 then 0
    else
      var last := s[|s| - 1];
      if IsDigit(last) then DigitValue(s[..|s| - 1]) * 10 + (last as int - '0' as int)
      else DigitValue(s[..|s| - 1])
  }

  /** An unsigned digit run and its value. */
  function ParseUnsigned(u: string): Option<nat> {
    if DigitRun(u) then Some(DigitValue(u)) else None
  }

  /** Python `int(s)` on ASCII text: surrounding whitespace, an optional sign,
      then a digit run; anything else is a ValueError, here `None`. */
  function ParseInt(s: string): Option<int> {
    var t := TrimEnd(TrimStart(s));
    if |t| > 0 && t[0] == '-' then
      match ParseUnsigned(t[1..])
      case Some(v) => Some(-(v as int))
      case None => None
    else if |t| > 0 && t[0] == '+' then
      match ParseUnsigned(t[1..])
      case Some(v) => Some(v as int)
      case None => None
    else
      match ParseUnsigned(t)
      case Some(v) => Some(v as int)
      case None => None
  }

  /** The decimal text of a natural number, as `str(n)` prints it. */
  function NatText(n: nat): (r: string)
    ensures |r| > 0 && IsDigit(r[0]) && IsDigit(r[|r| - 1])
    ensures forall k :: 0 <= k < |r| ==> IsDigit(r[k])
  {
    var d := [('0' as int + n % 10) as char];
    if n < 10 then d else NatText(n / 10) + d
  }

  /** Text with no surrounding whitespace is left alone by the trimming. */
  lemma TrimNoop(s: string)
    requires |s| > 0 && !IsSpace(s[0]) && !IsSpace(s[|s| - 1])
    ensures TrimEnd(TrimStart(s)) == s
  {
  }

  lemma {:induction false} DigitValueOfText(n: nat)
    ensures DigitValue(NatText(n)) == n
  {
    var s := NatText(n);
    if n >= 10 {
      DigitValueOfText(n / 10);
      assert s[..|s| - 1] == NatText(n / 10);
    }
  }

  /** `int(str(n)) == n` and `int("-" + str(n)) == -n`: parsing undoes printing. */
  lemma ParseIntOfText(n: nat)
    ensures ParseInt(NatText(n)) == Some(n)
    ensures ParseInt("-" + NatText(n)) == Some(-(n as int))
  {
    var s := NatText(n);
    DigitValueOfText(n);
    assert DigitRun(s);
    assert ParseUnsigned(s) == Some(n);
    TrimNoop(s);
    assert TrimEnd(TrimStart(s)) == s;
    assert s[0] != '-' && s[0] != '+';
    var m := "-" + s;
    TrimNoop(m);
    assert TrimEnd(TrimStart(m)) == m;
    assert m[0] == '-' && m[1..] == s;
  }

  // ------------------------------------------------------------------ style

  datatype Style = Open | Filled

  function StyleText(s: Style): string {
    match s
    case Open => "open"
    case Filled => "filled"
  }

  /** `"open" if dur and int(dur) <= 2 else "filled"`, where a duration `int()`
      rejects counts as absent: open exactly for a nonzero integer at most 2. */
  function NoteheadStyle(dur: string): (r: Style)
    ensures r == Open <==> ParseInt(dur).Some? && ParseInt(dur).value != 0 && ParseInt(dur).value <= 2
  {
    match ParseInt(dur)
    case Some(v) => if v != 0 && v <= 2 then Open else Filled
    case None => Filled
  }

  /** For the printed durations of MEI (1 whole, 2 half, 4 quarter, ...), the
      whole and the half are open and every shorter one filled. */
  lemma StyleOfDuration(n: nat)
    ensures NoteheadStyle(NatText(n)) == Open <==> n == 1 || n == 2
  {
    ParseIntOfText(n);
  }

  /** The spelled-out long durations are filled, and a negative count is
      open: `int("-1")` is truthy and at most 2. */
  lemma StyleOfWords()
    ensures NoteheadStyle("breve") == Filled
    ensures NoteheadStyle("None") == Filled
  {
    WordIsNoInt("breve");
    WordIsNoInt("None");
  }

  /** Text that starts with neither a sign, a digit nor a space is no integer. */
  lemma WordIsNoInt(w: string)
    requires |w| > 0 && !IsSpace(w[0]) && !IsSpace(w[|w| - 1])
    requires w[0] != '-' && w[0] != '+' && !IsDigit(w[0])
    ensures ParseInt(w) == None
  {
    TrimNoop(w);
    assert !DigitRun(w);
  }

  lemma StyleOfNegative()
    ensures NoteheadStyle("-1") == Open
  {
    assert NatText(1) == "1";
    ParseIntOfText(1);
    assert "-" + NatText(1) == "-1";
  }

  // ------------------------------------------------------------- symbol ids

  /** The id of one generated symbol: `{pitch}-{style}-{stem}`. */
  function SymbolId(pitch: string, style: Style, dir: Direction): string {
    pitch + "-" + (StyleText(style) + "-" + DirectionText(dir))
  }

  /** One loop of `add_symbols_to_defs`: for every square pitch in order, the
      open symbol and then the filled one, for a single stem direction. */
  function SymbolBlock(dir: Direction, pitches: seq<string>): (r: seq<string>)
    ensures |r| == 2 * |pitches|
    ensures forall i :: 0 <= i < |pitches| ==>
      r[2 * i] == SymbolId(pitches[i], Open, dir) && r[2 * i + 1] == SymbolId(pitches[i], Filled, dir)
  {
    if |pitches| == 0 then []
    else
      var rest := SymbolBlock(dir, pitches[1..]);
      var r := [SymbolId(pitches[0], Open, dir), SymbolId(pitches[0], Filled, dir)] + rest;
      assert forall i :: 1 <= i < |pitches| ==> pitches[1..][i - 1] == pitches[i];
      assert forall i :: 2 <= i < |r| ==> r[i] == rest[i - 2];
      r
  }

  /** The ids `add_symbols_to_defs` appends, in order: the stem-down block,
      then stem-up, then no-stem. Every (pitch, style, direction) has one. */
  function SymbolIds(pitches: seq<string>): (r: seq<string>)
    ensures |r| == 6 * |pitches|
  {
    SymbolBlock(Down, pitches) + SymbolBlock(Up, pitches) + SymbolBlock(NoStem, pitches)
  }

  /** Every (pitch, style, direction) has its symbol among the ids. */
  lemma SymbolIdsCover(pitches: seq<string>, i: nat, s: Style, d: Direction)
    requires i < |pitches|
    ensures SymbolId(pitches[i], s, d) in SymbolIds(pitches)
  {
    var n := |pitches|;
    var base := match d case Down => 0 case Up => 2 * n case NoStem => 4 * n;
    var k := base + 2 * i + (if s == Open then 0 else 1);
    assert Decode(n, k) == (i, s, d);
    DecodeAt(pitches, k);
  }

  /** Two texts joined at a '-' split back the same way when the part before
      the '-' holds none. */
  lemma SplitAtDash(p1: string, r1: string, p2: string, r2: string)
    requires '-' !in p1 && '-' !in p2
    requires p1 + "-" + r1 == p2 + "-" + r2
    ensures p1 == p2 && r1 == r2
  {
    var x, y := p1 + "-" + r1, p2 + "-" + r2;
    assert x[|p1|] == '-' && y[|p2|] == '-';
    if |p1| < |p2| {
      assert false;
    } else if |p2| < |p1| {
      assert false;
    }
    assert p1 == x[..|p1|];
    assert p2 == y[..|p2|];
    assert r1 == x[|p1| + 1..];
    assert r2 == y[|p2| + 1..];
  }

  /** An id determines its pitch, style and direction, as long as no pitch
      spelling holds a '-'. */
  lemma SymbolIdInjective(p1: string, s1: Style, d1: Direction, p2: string, s2: Style, d2: Direction)
    requires '-' !in p1 && '-' !in p2
    requires SymbolId(p1, s1, d1) == SymbolId(p2, s2, d2)
    ensures p1 == p2 && s1 == s2 && d1 == d2
  {
    SplitAtDash(p1, StyleText(s1) + "-" + DirectionText(d1), p2, StyleText(s2) + "-" + DirectionText(d2));
    assert '-' !in StyleText(s1) && '-' !in StyleText(s2);
    SplitAtDash(StyleText(s1), DirectionText(d1), StyleText(s2), DirectionText(d2));
  }

  /** With distinct pitch spellings free of '-', no two generated symbols
      share an id. */
  lemma SymbolIdsDistinct(pitches: seq<string>)
    requires Distinct(pitches)
    requires forall i :: 0 <= i < |pitches| ==> '-' !in pitches[i]
    ensures Distinct(SymbolIds(pitches))
  {
    var n := |pitches|;
    var r := SymbolIds(pitches);
    var down, up, none := SymbolBlock(Down, pitches), SymbolBlock(Up, pitches), SymbolBlock(NoStem, pitches);
    assert r == down + up + none;
    forall a, b | 0 <= a < b < |r| ensures r[a] != r[b] {
      var (ia, sa, da) := Decode(n, a);
      var (ib, sb, db) := Decode(n, b);
      DecodeAt(pitches, a);
      DecodeAt(pitches, b);
      if r[a] == r[b] {
        SymbolIdInjective(pitches[ia], sa, da, pitches[ib], sb, db);
        DecodeInjective(n, a, b);
      }
    }
  }

  /** Which (pitch index, style, direction) position `k` of the id list holds. */
  function Decode(n: nat, k: nat): (nat, Style, Direction)
    requires k < 6 * n
  {
    var (off, dir) := if k < 2 * n then (k, Down) else if k < 4 * n then (k - 2 * n, Up) else (k - 4 * n, NoStem);
    (off / 2, if off % 2 == 0 then Open else Filled, dir)
  }

  lemma DecodeAt(pitches: seq<string>, k: nat)
    requires k < 6 * |pitches|
    ensures Decode(|pitches|, k).0 < |pitches|
    ensures SymbolIds(pitches)[k] == SymbolId(pitches[Decode(|pitches|, k).0], Decode(|pitches|, k).1, Decode(|pitches|, k).2)
  {
    var n := |pitches|;
    var down, up, none := SymbolBlock(Down, pitches), SymbolBlock(Up, pitches), SymbolBlock(NoStem, pitches);
    if k < 2 * n {
      BlockAt(Down, pitches, k);
      assert SymbolIds(pitches)[k] == down[k];
    } else if k < 4 * n {
      BlockAt(Up, pitches, k - 2 * n);
      assert SymbolIds(pitches)[k] == up[k - 2 * n];
    } else {
      BlockAt(NoStem, pitches, k - 4 * n);
      assert SymbolIds(pitches)[k] == none[k - 4 * n];
    }
  }

  lemma BlockAt(dir: Direction, pitches: seq<string>, off: nat)
    requires off < 2 * |pitches|
    ensures SymbolBlock(dir, pitches)[off] == SymbolId(pitches[off / 2], if off % 2 == 0 then Open else Filled, dir)
  {
    var i := off / 2;
    assert off == 2 * i || off == 2 * i + 1;
  }

  lemma DecodeInjective(n: nat, a: nat, b: nat)
    requires a < 6 * n && b < 6 * n
    requires Decode(n, a) == Decode(n, b)
    ensures a == b
  {
  }

  // ---------------------------------------------------------------- patches

  /** `STROKE_WIDTH`, the outline width of a painted notehead. */
  const StrokeWidth: nat := 20

  lemma StrokeWidthText()
    ensures NatText(StrokeWidth) == "20"
  {
    assert NatText(2) == "2";
  }

  /** The notehead group of a note glyph, reduced to whether it holds the
      `<use>` element that places the notehead symbol. */
  datatype NoteheadGroup = NoteheadGroup(hasUse: bool)

  /** What `render_note_to_colormusic` writes: a new `xlink:href` on the
      notehead's `<use>` for a square pitch, or fill, stroke and stroke width
      on the notehead group for a circle pitch. */
  datatype GlyphPatch =
    | Resymbol(href: string)
    | Repaint(fill: string, stroke: string, strokeWidth: string)

  // ------------------------------------------------------------ reordering

  /** A direct child of a note's `<g>`: the notehead group, the stem group, or
      anything else; `body` stands for the rest of the element, so two
      children are equal exactly when bs4 would compare them equal. */
  datatype Child = Notehead(body: nat) | StemChild(body: nat) | Other(body: nat)

  function FirstNotehead(cs: seq<Child>): (r: Option<nat>)
    ensures r.Some? ==> r.value < |cs| && cs[r.value].Notehead? && forall k :: 0 <= k < r.value ==> !cs[k].Notehead?
    ensures r.None? ==> forall k :: 0 <= k < |cs| ==> !cs[k].Notehead?
  {
    if |cs| == 0 then None
    else if cs[0].Notehead? then Some(0)
    else match FirstNotehead(cs[1..])
      case None => None
      case Some(j) => Some(j + 1)
  }

  function FirstStem(cs: seq<Child>): (r: Option<nat>)
    ensures r.Some? ==> r.value < |cs| && cs[r.value].StemChild? && forall k :: 0 <= k < r.value ==> !cs[k].StemChild?
    ensures r.None? ==> forall k :: 0 <= k < |cs| ==> !cs[k].StemChild?
  {
    if |cs| == 0 then None
    else if cs[0].StemChild? then Some(0)
    else match FirstStem(cs[1..])
      case None => None
      case Some(j) => Some(j + 1)
  }

  /** `list.index(x)`: the first position holding a value equal to `x`. */
  function IndexOf(cs: seq<Child>, x: Child): (r: nat)
    requires x in cs
    ensures r < |cs| && cs[r] == x && x !in cs[..r]
  {
    if cs[0] == x then 0 else 1 + IndexOf(cs[1..], x)
  }

  /** The sequence without position `k`. */
  function RemoveAt(cs: seq<Child>, k: nat): (r: seq<Child>)
    requires k < |cs|
    ensures |r| == |cs| - 1
    ensures forall i :: 0 <= i < |r| ==> r[i] == if i < k then cs[i] else cs[i + 1]
  {
    cs[..k] + cs[k + 1..]
  }

  /** The sequence with `c` inserted before position `k`, as `insert` does. */
  function InsertAt(cs: seq<Child>, k: nat, c: Child): (r: seq<Child>)
    requires k <= |cs|
    ensures |r| == |cs| + 1 && r[k] == c
    ensures forall i :: 0 <= i < |r| && i != k ==> r[i] == if i < k then cs[i] else cs[i - 1]
  {
    cs[..k] + [c] + cs[k..]
  }

  /** Where the notehead lies once the first stem is taken out. */
  function Landing(h: nat, s: nat): nat {
    if s < h then h - 1 else h
  }

  /** `reorder_note`: with a notehead and a stem, unless the child just before
      the notehead equals the stem, take the stem out and insert it before the
      first child equal to the notehead; otherwise leave the children alone. */
  function ReorderNote(cs: seq<Child>): (r: seq<Child>)
    ensures FirstNotehead(cs).None? || FirstStem(cs).None? ==> r == cs
  {
    var hn, sn := FirstNotehead(cs), FirstStem(cs);
    if hn.None? || sn.None? then cs
    else if hn.value > 0 && cs[hn.value - 1] == cs[sn.value] then cs
    else
      var rest := RemoveAt(cs, sn.value);
      assert rest[Landing(hn.value, sn.value)] == cs[hn.value];
      InsertAt(rest, IndexOf(rest, cs[hn.value]), cs[sn.value])
  }

  /** Reordering only permutes the children: nothing is lost or duplicated. */
  lemma ReorderPermutes(cs: seq<Child>)
    ensures multiset(ReorderNote(cs)) == multiset(cs)
  {
    var hn, sn := FirstNotehead(cs), FirstStem(cs);
    if hn.Some? && sn.Some? && !(hn.value > 0 && cs[hn.value - 1] == cs[sn.value]) {
      var h, s := hn.value, sn.value;
      ReorderNoteMoves(cs, h, s);
      MultisetRemoveAt(cs, s);
      MultisetInsertAt(RemoveAt(cs, s), Landing(h, s), cs[s]);
    } else {
      assert ReorderNote(cs) == cs;
    }
  }

  lemma MultisetRemoveAt(cs: seq<Child>, k: nat)
    requires k < |cs|
    ensures multiset(RemoveAt(cs, k)) + multiset{cs[k]} == multiset(cs)
  {
    assert cs == cs[..k] + [cs[k]] + cs[k + 1..];
  }

  lemma MultisetInsertAt(cs: seq<Child>, k: nat, c: Child)
    requires k <= |cs|
    ensures multiset(InsertAt(cs, k, c)) == multiset(cs) + multiset{c}
  {
    assert cs == cs[..k] + cs[k..];
  }

  lemma FirstNoteheadAt(cs: seq<Child>, j: nat)
    requires j < |cs| && cs[j].Notehead?
    requires forall k :: 0 <= k < j ==> !cs[k].Notehead?
    ensures FirstNotehead(cs) == Some(j)
  {
  }

  lemma FirstStemAt(cs: seq<Child>, j: nat)
    requires j < |cs| && cs[j].StemChild?
    requires forall k :: 0 <= k < j ==> !cs[k].StemChild?
    ensures FirstStem(cs) == Some(j)
  {
  }

  /** `list.index` finds the notehead where it lies, since every child before
      it is no notehead and so cannot equal it. */
  lemma IndexOfNotehead(rest: seq<Child>, w: nat)
    requires w < |rest| && rest[w].Notehead?
    requires forall k :: 0 <= k < w ==> !rest[k].Notehead?
    ensures IndexOf(rest, rest[w]) == w
  {
  }

  /** The move itself, when the stem does not already precede the notehead. */
  lemma ReorderNoteMoves(cs: seq<Child>, h: nat, s: nat)
    requires FirstNotehead(cs) == Some(h) && FirstStem(cs) == Some(s)
    requires !(h > 0 && cs[h - 1] == cs[s])
    ensures ReorderNote(cs) == InsertAt(RemoveAt(cs, s), Landing(h, s), cs[s])
  {
    var rest, w := RemoveAt(cs, s), Landing(h, s);
    assert rest[w] == cs[h];
    forall k | 0 <= k < w ensures !rest[k].Notehead? {
      if k < s { assert rest[k] == cs[k]; } else { assert rest[k] == cs[k + 1]; }
    }
    IndexOfNotehead(rest, w);
  }

  /** After reordering, the stem sits right before the notehead: either it
      already did and nothing changed, or the stem was moved there, the
      notehead is still the first one, and every other child keeps its
      relative order. */
  lemma ReorderMovesStem(cs: seq<Child>, h: nat, s: nat)
    requires FirstNotehead(cs) == Some(h) && FirstStem(cs) == Some(s)
    ensures var r := ReorderNote(cs);
      && FirstNotehead(r).Some? && FirstNotehead(r).value > 0
      && r[FirstNotehead(r).value] == cs[h]
      && r[FirstNotehead(r).value - 1] == cs[s]
      && (h > 0 && cs[h - 1] == cs[s] ==> r == cs)
      && (!(h > 0 && cs[h - 1] == cs[s]) ==>
            FirstNotehead(r) == Some(Landing(h, s) + 1) && RemoveAt(r, Landing(h, s)) == RemoveAt(cs, s))
  {
    if !(h > 0 && cs[h - 1] == cs[s]) {
      ReorderNoteMoves(cs, h, s);
      var r := InsertAt(RemoveAt(cs, s), Landing(h, s), cs[s]);
      MovedLayout(cs, h, s);
      RemoveInserted(RemoveAt(cs, s), Landing(h, s), cs[s]);
      assert ReorderNote(cs) == r;
    } else {
      assert ReorderNote(cs) == cs;
    }
  }

  lemma MovedLayout(cs: seq<Child>, h: nat, s: nat)
    requires FirstNotehead(cs) == Some(h) && FirstStem(cs) == Some(s)
    ensures var r, w := InsertAt(RemoveAt(cs, s), Landing(h, s), cs[s]), Landing(h, s);
      && FirstNotehead(r) == Some(w + 1)
      && r[w] == cs[s] && r[w + 1] == cs[h]
  {
    var rest, w := RemoveAt(cs, s), Landing(h, s);
    var r := InsertAt(rest, w, cs[s]);
    assert r[w + 1] == rest[w] == cs[h];
    forall k | 0 <= k < w + 1 ensures !r[k].Notehead? {
      if k < w {
        if k < s { assert r[k] == cs[k]; } else { assert r[k] == cs[k + 1]; }
      }
    }
    FirstNoteheadAt(r, w + 1);
  }

  lemma RemoveInserted(cs: seq<Child>, k: nat, c: Child)
    requires k <= |cs|
    ensures RemoveAt(InsertAt(cs, k, c), k) == cs
  {
    var r := RemoveAt(InsertAt(cs, k, c), k);
    assert forall i :: 0 <= i < |r| ==> r[i] == cs[i];
  }

  /** No two children are stem groups. */
  predicate AtMostOneStem(cs: seq<Child>) {
    forall a, b :: 0 <= a < b < |cs| ==> !(cs[a].StemChild? && cs[b].StemChild?)
  }

  /** A second reordering changes nothing, for a note with one stem child. */
  lemma ReorderIdempotent(cs: seq<Child>)
    requires AtMostOneStem(cs)
    ensures ReorderNote(ReorderNote(cs)) == ReorderNote(cs)
  {
    var hn, sn := FirstNotehead(cs), FirstStem(cs);
    if hn.Some? && sn.Some? && !(hn.value > 0 && cs[hn.value - 1] == cs[sn.value]) {
      var h, s := hn.value, sn.value;
      var w, rest := Landing(h, s), RemoveAt(cs, s);
      ReorderNoteMoves(cs, h, s);
      MovedLayout(cs, h, s);
      var r := InsertAt(rest, w, cs[s]);
      forall k | 0 <= k < w ensures !r[k].StemChild? {
        assert r[k] == rest[k];
        if k >= s { assert !(cs[s].StemChild? && cs[k + 1].StemChild?); }
      }
      FirstStemAt(r, w);
      assert ReorderNote(r) == r;
    }
  }

  /** With two different stem children before the notehead, the first-stem
      lookup alternates between them: reordering swaps the two stems, and a
      second reordering swaps them back. */
  lemma ReorderTwoStemsAlternates(cs: seq<Child>)
    requires |cs| == 3 && cs[0].StemChild? && cs[1].StemChild? && cs[2].Notehead?
    requires cs[0] != cs[1]
    ensures ReorderNote(cs) == [cs[1], cs[0], cs[2]]
    ensures ReorderNote(ReorderNote(cs)) == cs
  {
    SwapFirstTwoStems(cs);
    var ds := [cs[1], cs[0], cs[2]];
    SwapFirstTwoStems(ds);
    assert [ds[1], ds[0], ds[2]] == cs;
  }

  lemma SwapFirstTwoStems(cs: seq<Child>)
    requires |cs| == 3 && cs[0].StemChild? && cs[1].StemChild? && cs[2].Notehead?
    requires cs[0] != cs[1]
    ensures ReorderNote(cs) == [cs[1], cs[0], cs[2]]
  {
    FirstNoteheadAt(cs, 2);
    FirstStemAt(cs, 0);
    ReorderNoteMoves(cs, 2, 0);
    var rest := RemoveAt(cs, 0);
    var r := InsertAt(rest, 1, cs[0]);
    assert r[0] == cs[1] && r[1] == cs[0] && r[2] == cs[2];
    assert r == [cs[1], cs[0], cs[2]];
  }
}
