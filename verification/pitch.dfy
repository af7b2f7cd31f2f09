/** The current renderer's pitch tables and its chromatic reduction: a label
    prefix (a letter and a run of `s`/`f`) becomes one of the twelve
    flat-spelled pitch classes, which decides a notehead's colour and whether
    it is drawn as a square. */
module Pitch {
  import opened Common
  import opened Score

  /** `CHROMATIC_SCALE`: the twelve pitch classes, flat variant. */
  const ChromaticScale: seq<string> := ["C", "Df", "D", "Ef", "E", "F", "Gf", "G", "Af", "A", "Bf", "B"]

  /** `PITCH_COLORS`: both spellings of every black key, and the enharmonic
      spellings of the white keys around E/F and B/C. */
  const PitchColors: map<string, string> := map[
    "A" := "#fdbb13",
    "B" := "#A6CE39", "Cf" := "#A6CE39",
    "C" := "#DA1E48", "Bs" := "#DA1E48",
    "D" := "#F58220",
    "E" := "#F3DC0B", "Ff" := "#F3DC0B",
    "F" := "#AB218E", "Es" := "#AB218E",
    "G" := "#F04E23",
    "Gs" := "#0098DD", "Af" := "#0098DD",
    "As" := "#823F98", "Bf" := "#823F98",
    "Cs" := "#00A995", "Df" := "#00A995",
    "Ds" := "#3763AF", "Ef" := "#3763AF",
    "Fs" := "#39B54A", "Gf" := "#39B54A"]

  /** `SQUARE_PITCHES`: eleven spellings of six pitch classes. */
  const SquarePitches: seq<string> := ["Af", "Gs", "Bf", "As", "C", "Bs", "D", "E", "Ff", "Gf", "Fs"]

  /** `CHROMATIC_SCALE.index(c)` for the one-character string `c`. */
  function NaturalIndex(c: char): (r: Option<nat>)
    ensures r.Some? <==> [c] in ChromaticScale
    ensures r.Some? ==> r.value < |ChromaticScale| && ChromaticScale[r.value] == [c]
  {
    match c
    case 'C' => Some(0)
    case 'D' => Some(2)
    case 'E' => Some(4)
    case 'F' => Some(5)
    case 'G' => Some(7)
    case 'A' => Some(9)
    case 'B' => Some(11)
    case _ => None
  }

  /** One pass of the loop: a flat lowers the index, a sharp raises it,
      any other character leaves it; an index that reaches 12 wraps to 0.
      Nothing wraps a negative index. */
  function Shift(idx: int, c: char): int {
    var moved := if c == 'f' then idx - 1 else if c == 's' then idx + 1 else idx;
    if moved >= 12 then moved - 12 else moved
  }

  function Walk(idx: int, s: string): int
    decreases |s|
  {
    if |s| == 0 then idx else Walk(Shift(idx, s[0]), s[1..])
  }

  /** How many times `c` occurs in `s`. */
  function Count(c: char, s: string): nat
    decreases |s|
  {
    if |s| == 0 then 0 else (if s[0] == c then 1 else 0) + Count(c, s[1..])
  }

  /** `simplify_pitch`: the index is read with Python's list indexing, so a
      final index in -12..-1 counts from the end and anything lower is an
      IndexError; an empty spelling or a first character that is not a natural
      letter fails too. */
  function SimplifyPitch(spelling: string): (r: Result<string>)
    ensures r.Ok? ==> r.value in ChromaticScale
    ensures r.Err? ==> r.error == UnknownPitch
    ensures |spelling| == 0 || [spelling[0]] !in ChromaticScale ==> r.Err?
  {
    if |spelling| == 0 then Err(UnknownPitch)
    else match NaturalIndex(spelling[0])
      case None => Err(UnknownPitch)
      case Some(i) =>
        var j := Walk(i, spelling[1..]);
        if 0 <= j < 12 then Ok(ChromaticScale[j])
        else if -12 <= j < 0 then Ok(ChromaticScale[j + 12])
        else Err(UnknownPitch)
  }

  /** The walk never reaches 12, sinks below 0 (or below a negative start)
      by at most one per flat, and lands on the index moved by the sharps
      minus the flats, modulo 12. */
  lemma {:induction false} WalkModular(idx: int, s: string)
    requires idx < 12
    ensures Walk(idx, s) < 12
    ensures Walk(idx, s) >= (if idx < 0 then idx else 0) - Count('f', s)
    ensures Walk(idx, s) % 12 == (idx + Count('s', s) - Count('f', s)) % 12
    decreases |s|
  {
    if |s| > 0 {
      var next := Shift(idx, s[0]);
      assert Walk(idx, s) == Walk(next, s[1..]);
      WalkModular(next, s[1..]);
      var delta := if s[0] == 'f' then -1 else if s[0] == 's' then 1 else 0;
      assert next == idx + delta || next == idx + delta - 12;
      assert Count('s', s) == (if s[0] == 's' then 1 else 0) + Count('s', s[1..]);
      assert Count('f', s) == (if s[0] == 'f' then 1 else 0) + Count('f', s[1..]);
      var x := idx + Count('s', s) - Count('f', s);
      ModuloTwelve(next + Count('s', s[1..]) - Count('f', s[1..]), x);
    }
  }

  lemma ModuloTwelve(a: int, b: int)
    requires a == b || a == b - 12
    ensures a % 12 == b % 12
  {
  }

  /** Each `s` adds a semitone and each `f` takes one away, modulo 12, and
      every other character is ignored, as long as the spelling has at most
      twelve flats after its letter. */
  lemma SimplifyPitchModular(spelling: string)
    requires |spelling| > 0 && [spelling[0]] in ChromaticScale
    requires Count('f', spelling[1..]) <= 12
    ensures SimplifyPitch(spelling) ==
      Ok(ChromaticScale[(NaturalIndex(spelling[0]).value + Count('s', spelling[1..]) - Count('f', spelling[1..])) % 12])
  {
    var i := NaturalIndex(spelling[0]).value;
    WalkModular(i, spelling[1..]);
    var j := Walk(i, spelling[1..]);
    var x := i + Count('s', spelling[1..]) - Count('f', spelling[1..]);
    assert -12 <= j < 12;
    if j < 0 {
      ModuloTwelve(j, j + 12);
      SmallModulo(j + 12, x);
      assert SimplifyPitch(spelling) == Ok(ChromaticScale[j + 12]);
    } else {
      SmallModulo(j, x);
      assert SimplifyPitch(spelling) == Ok(ChromaticScale[j]);
    }
  }

  lemma SmallModulo(r: int, x: int)
    requires 0 <= r < 12 && r % 12 == x % 12
    ensures r == x % 12
  {
  }

  /** With thirteen flats the loop leaves Python's index range: "C" followed
      by thirteen `f` fails where counting modulo 12 would give "B". */
  lemma ThirteenFlatsFail()
    ensures SimplifyPitch("Cfffffffffffff") == Err(UnknownPitch)
  {
    var s := "fffffffffffff";
    assert "Cfffffffffffff"[1..] == s;
    FlatRun(0, s);
  }

  lemma {:induction false} FlatRun(idx: int, s: string)
    requires idx < 12
    requires forall k :: 0 <= k < |s| ==> s[k] == 'f'
    ensures Walk(idx, s) == idx - |s|
    decreases |s|
  {
    if |s| > 0 {
      FlatRun(idx - 1, s[1..]);
    }
  }

  /** B sharp reduces to C, C double flat to B flat, F double sharp to G. */
  lemma EnharmonicExamples()
    ensures SimplifyPitch("Bs") == Ok("C")
    ensures SimplifyPitch("Cff") == Ok("Bf")
    ensures SimplifyPitch("Fss") == Ok("G")
  {
    SimplifyPitchModular("Bs");
    SimplifyPitchModular("Cff");
    SimplifyPitchModular("Fss");
  }

  /** Every natural in the colour table is its own pitch class. */
  lemma NaturalReductions()
    ensures SimplifyPitch("A") == Ok("A") && SimplifyPitch("B") == Ok("B") && SimplifyPitch("C") == Ok("C")
    ensures SimplifyPitch("D") == Ok("D") && SimplifyPitch("E") == Ok("E") && SimplifyPitch("F") == Ok("F")
    ensures SimplifyPitch("G") == Ok("G")
  {
    assert "A"[1..] == "" && "B"[1..] == "" && "C"[1..] == "" && "D"[1..] == "";
    assert "E"[1..] == "" && "F"[1..] == "" && "G"[1..] == "";
  }

  /** The white-key enharmonics: B sharp is C, E sharp is F, F flat is E
      (C flat, the one whose index goes below zero, is below). */
  lemma WhiteKeyReductions()
    ensures SimplifyPitch("Bs") == Ok("C") && SimplifyPitch("Es") == Ok("F") && SimplifyPitch("Ff") == Ok("E")
  {
    assert "Bs"[1..] == "s" && "Es"[1..] == "s" && "Ff"[1..] == "f";
  }

  lemma CFlatReduction()
    ensures SimplifyPitch("Cf") == Ok("B")
  {
    assert "Cf"[1..] == "f";
    assert Walk(0, "f") == -1;
  }

  /** A sharp on a black key reduces to the flat spelling of the same key. */
  lemma BlackSharpReductions()
    ensures SimplifyPitch("Gs") == Ok("Af") && SimplifyPitch("As") == Ok("Bf") && SimplifyPitch("Cs") == Ok("Df")
  {
    assert "Gs"[1..] == "s" && "As"[1..] == "s" && "Cs"[1..] == "s";
  }

  lemma MoreBlackSharpReductions()
    ensures SimplifyPitch("Ds") == Ok("Ef") && SimplifyPitch("Fs") == Ok("Gf")
  {
    assert "Ds"[1..] == "s" && "Fs"[1..] == "s";
  }

  /** A flat on a black key is already a pitch class. */
  lemma BlackFlatReductions()
    ensures SimplifyPitch("Af") == Ok("Af") && SimplifyPitch("Bf") == Ok("Bf") && SimplifyPitch("Df") == Ok("Df")
  {
    assert "Af"[1..] == "f" && "Bf"[1..] == "f" && "Df"[1..] == "f";
  }

  lemma MoreBlackFlatReductions()
    ensures SimplifyPitch("Ef") == Ok("Ef") && SimplifyPitch("Gf") == Ok("Gf")
  {
    assert "Ef"[1..] == "f" && "Gf"[1..] == "f";
  }

  /** The colour table gives a spelling the colour of the class it reduces
      to. With the reductions above this covers every spelling it knows. */
  lemma EnharmonicColours()
    ensures PitchColors["Cf"] == PitchColors["B"] && PitchColors["Bs"] == PitchColors["C"]
    ensures PitchColors["Ff"] == PitchColors["E"] && PitchColors["Es"] == PitchColors["F"]
    ensures PitchColors["Gs"] == PitchColors["Af"] && PitchColors["As"] == PitchColors["Bf"]
    ensures PitchColors["Cs"] == PitchColors["Df"] && PitchColors["Ds"] == PitchColors["Ef"]
    ensures PitchColors["Fs"] == PitchColors["Gf"]
  {
  }

  /** A spelling is square exactly when the class it reduces to is. */
  lemma EnharmonicShapes()
    ensures ("Cf" in SquarePitches <==> "B" in SquarePitches) && ("Bs" in SquarePitches <==> "C" in SquarePitches)
    ensures ("Ff" in SquarePitches <==> "E" in SquarePitches) && ("Es" in SquarePitches <==> "F" in SquarePitches)
  {
  }

  lemma BlackKeyShapes()
    ensures ("Gs" in SquarePitches <==> "Af" in SquarePitches) && ("As" in SquarePitches <==> "Bf" in SquarePitches)
    ensures ("Cs" in SquarePitches <==> "Df" in SquarePitches) && ("Ds" in SquarePitches <==> "Ef" in SquarePitches)
    ensures ("Fs" in SquarePitches <==> "Gf" in SquarePitches)
  {
  }

  /** Every pitch class has a colour, so the fill lookup on a reduced pitch
      never misses; the square classes are A flat, B flat, C, D, E and
      G flat. */
  lemma ChromaticTables()
    ensures forall p :: p in ChromaticScale ==> p in PitchColors
    ensures forall p :: p in ChromaticScale ==> (p in SquarePitches <==> p in ["Af", "Bf", "C", "D", "E", "Gf"])
    ensures forall k :: k in SquarePitches ==> k in PitchColors
  {
  }
}
