/** Failure-compatible wrappers, the renderer's failure taxonomy, and the small
    string, dictionary and ordering helpers the rest of the model shares. */
module Common {

  datatype Option<+T> = None | Some(value: T) {
    function GetOr(default: T): T {
      match this
      case Some(v) => v
      case None => default
    }
  }

  /** Every way the renderer aborts. Each constructor names the Python
      exception the corresponding line raises. */
  datatype Error =
    | MissingChord                          // `None.get("dur")`: no dur and no enclosing chord
    | TieStartMissing                       // `None.get("label")`: no note carries the tie's start id
    | TieStartUnlabelled                    // `None.split(":")`: the tie start has no label yet
    | MissingStaffKey                       // KeyError on the per-staff key-signature map
    | MissingStaffMode                      // KeyError on "mode" of a staffDef@keysig entry
    | MissingOctave                         // TypeError joining a None octave into the memory key
    | UnboundSignature                      // UnboundLocalError: `sig` read before any assignment
    | UnhandledKeySignature(sig: string)    // the explicit ValueError of the key table
    | MissingClef                           // `None.get("shape")`: staffDef without a clef
    | MalformedLabel                        // the title does not unpack into exactly two parts
    | UnknownPitch                          // simplify_pitch: IndexError or ValueError
    | MissingNotehead                       // notehead element absent
    | MissingUse                            // notehead without a <use> element
    | UnknownColour                         // KeyError on the colour table

  datatype Result<+T> = Ok(value: T) | Err(error: Error) {
    predicate IsFailure() { Err? }
    function PropagateFailure<U>(): Result<U>
      requires Err?
    {
      Err(error)
    }
    function Extract(): T
      requires Ok?
    {
      value
    }
  }

  /** Python truthiness of an optional attribute value. */
  predicate Truthy(v: Option<string>) {
    v.Some? && v.value != ""
  }

  // ---------------------------------------------------------------- strings

  /** The string with every '#' removed, as `str.replace("#", "")` does. */
  function RemoveHash(s: string): string {
    if |s| == 0 then ""
    else (if s[0] == '#' then "" else [s[0]]) + RemoveHash(s[1..])
  }

  /** The result keeps every other character of the input and no '#'; an id
      without '#' is left as it is. */
  lemma {:induction false} RemoveHashChars(s: string)
    ensures forall c :: c in RemoveHash(s) <==> c in s && c != '#'
    ensures |RemoveHash(s)| <= |s|
    ensures '#' !in s ==> RemoveHash(s) == s
  {
    if |s| > 0 {
      RemoveHashChars(s[1..]);
      assert s == [s[0]] + s[1..];
    }
  }

  /** Removal works piece by piece: together with the single-character cases
      it fixes the result, order and multiplicity included. */
  lemma {:induction false} RemoveHashAppend(a: string, b: string)
    ensures RemoveHash(a + b) == RemoveHash(a) + RemoveHash(b)
    ensures RemoveHash("#") == "" && forall c :: c != '#' ==> RemoveHash([c]) == [c]
  {
    if |a| > 0 {
      assert (a + b)[1..] == a[1..] + b;
      RemoveHashAppend(a[1..], b);
    } else {
      assert a + b == b;
    }
    assert forall c :: c != '#' ==> RemoveHash([c]) == [c] by {
      forall c | c != '#' ensures RemoveHash([c]) == [c] {
        assert [c][1..] == [];
      }
    }
    assert "#"[1..] == [];
  }

  /** `s.split(":")[0]`: the longest prefix free of ':'. */
  function BeforeColon(s: string): (r: string)
    ensures |r| <= |s| && r == s[..|r|]
    ensures ':' !in r
    ensures |r| < |s| ==> s[|r|] == ':'
  {
    if |s| == 0 || s[0] == ':' then "" else [s[0]] + BeforeColon(s[1..])
  }

  /** `a, b = s.split(":")`: succeeds exactly when `s` holds one ':'. */
  function SplitOnColon(s: string): (r: Option<(string, string)>)
    ensures r.Some? ==> s == r.value.0 + ":" + r.value.1
    ensures r.Some? ==> ':' !in r.value.0 && ':' !in r.value.1
  {
    var a := BeforeColon(s);
    if |a| == |s| then None
    else
      var b := s[|a| + 1..];
      if ':' in b then None
      else
        assert s == a + ":" + b by {
          assert s == s[..|a|] + [s[|a|]] + s[|a| + 1..];
        }
        Some((a, b))
  }

  /** Splitting the text `a:b` gives back `a` and `b` whenever neither holds a colon. */
  lemma {:induction false} SplitOnColonJoin(a: string, b: string)
    requires ':' !in a && ':' !in b
    ensures SplitOnColon(a + ":" + b) == Some((a, b))
    ensures BeforeColon(a + ":" + b) == a
  {
    var s := a + ":" + b;
    assert s == a + (":" + b);
    BeforeColonOfJoin(a, ":" + b);
    assert |a| < |s|;
    assert s[|a| + 1..] == b;
    assert ':' !in s[|a| + 1..];
  }

  lemma {:induction false} BeforeColonOfJoin(a: string, rest: string)
    requires ':' !in a && |rest| > 0 && rest[0] == ':'
    ensures BeforeColon(a + rest) == a
    decreases |a|
  {
    if |a| == 0 {
      assert a + rest == rest;
    } else {
      assert (a + rest)[1..] == a[1..] + rest;
      BeforeColonOfJoin(a[1..], rest);
    }
  }

  // ------------------------------------------------------ insertion-ordered dict

  /** A Python dict with integer keys, as its insertion-ordered item list. */
  type Dict<V> = seq<(int, V)>

  predicate DistinctKeys<V>(d: Dict<V>) {
    forall i, j :: 0 <= i < j < |d| ==> d[i].0 != d[j].0
  }

  function Keys<V>(d: Dict<V>): (r: seq<int>)
    ensures |r| == |d|
    ensures forall i :: 0 <= i < |d| ==> r[i] == d[i].0
  {
    if |d| == 0 then [] else [d[0].0] + Keys(d[1..])
  }

  /** `d[k] = v`: an existing key keeps its position, a new key goes last. */
  function Put<V>(d: Dict<V>, k: int, v: V): (r: Dict<V>)
    requires DistinctKeys(d)
    ensures DistinctKeys(r)
    ensures Get(r, k) == Some(v)
    ensures forall k' :: k' != k ==> Get(r, k') == Get(d, k')
    ensures |r| > 0
  {
    if exists i :: 0 <= i < |d| && d[i].0 == k then
      var i :| 0 <= i < |d| && d[i].0 == k;
      var r := d[i := (k, v)];
      GetAt(r, i);
      forall k' | k' != k ensures Get(r, k') == Get(d, k') {
        GetSameEntries(d, r, k');
      }
      r
    else
      var r := d + [(k, v)];
      GetAt(r, |d|);
      forall k' | k' != k ensures Get(r, k') == Get(d, k') {
        GetSameEntries(d, r, k');
      }
      r
  }

  function Get<V>(d: Dict<V>, k: int): Option<V> {
    if |d| == 0 then None
    else if d[0].0 == k then Some(d[0].1)
    else Get(d[1..], k)
  }

  lemma {:induction false} GetAt<V>(d: Dict<V>, i: nat)
    requires DistinctKeys(d) && i < |d|
    ensures Get(d, d[i].0) == Some(d[i].1)
  {
    if i > 0 {
      GetAt(d[1..], i - 1);
    }
  }

  lemma {:induction false} GetSomeIffKey<V>(d: Dict<V>, k: int)
    ensures Get(d, k).Some? <==> k in Keys(d)
  {
    if |d| > 0 {
      GetSomeIffKey(d[1..], k);
      assert Keys(d) == [d[0].0] + Keys(d[1..]);
    }
  }

  lemma {:induction false} GetNone<V>(d: Dict<V>, k: int)
    requires forall i :: 0 <= i < |d| ==> d[i].0 != k
    ensures Get(d, k) == None
  {
    if |d| > 0 {
      GetNone(d[1..], k);
    }
  }

  /** Two dicts whose entries for `k'` sit at the same positions give the
      same lookup for `k'`. */
  lemma {:induction false} GetSameEntries<V>(d: Dict<V>, r: Dict<V>, k': int)
    requires DistinctKeys(d) && DistinctKeys(r)
    requires forall i :: 0 <= i < |d| && d[i].0 == k' ==> i < |r| && r[i] == d[i]
    requires forall i :: 0 <= i < |r| && r[i].0 == k' ==> i < |d| && d[i] == r[i]
    ensures Get(r, k') == Get(d, k')
  {
    if i :| 0 <= i < |d| && d[i].0 == k' {
      GetAt(d, i);
      GetAt(r, i);
    } else {
      GetNone(d, k');
      GetNone(r, k');
    }
  }

  // ----------------------------------------------------------------- ordering

  predicate Increasing(s: seq<int>) {
    forall i, j :: 0 <= i < j < |s| ==> s[i] < s[j]
  }

  predicate Distinct<T(==)>(s: seq<T>) {
    forall i, j :: 0 <= i < j < |s| ==> s[i] != s[j]
  }

  function Insert(x: int, s: seq<int>): (r: seq<int>)
    requires Increasing(s) && x !in s
    ensures Increasing(r)
    ensures |r| == |s| + 1
    ensures forall y :: y in r <==> y in s || y == x
  {
    if |s| == 0 then [x]
    else if x < s[0] then
      assert forall j :: 0 <= j < |s| ==> s[0] <= s[j];
      [x] + s
    else
      var t := Insert(x, s[1..]);
      assert forall y :: y in s[1..] ==> s[0] < y by {
        forall y | y in s[1..] ensures s[0] < y {
          var j :| 0 <= j < |s[1..]| && s[1..][j] == y;
          assert s[j + 1] == y;
        }
      }
      assert forall j :: 0 <= j < |t| ==> s[0] < t[j] by {
        forall j | 0 <= j < |t| ensures s[0] < t[j] {
          assert t[j] in t;
        }
      }
      assert s == [s[0]] + s[1..];
      [s[0]] + t
  }

  /** `sorted(...)` of a list of distinct integers. */
  function Sort(s: seq<int>): (r: seq<int>)
    requires Distinct(s)
    ensures Increasing(r)
    ensures |r| == |s|
    ensures forall y :: y in r <==> y in s
  {
    if |s| == 0 then []
    else
      assert s == [s[0]] + s[1..];
      Insert(s[0], Sort(s[1..]))
  }

  lemma TakeOfTake<T>(s: seq<T>, a: nat, b: nat)
    requires b <= a <= |s|
    ensures s[..a][..b] == s[..b]
  {
  }

  lemma TakeIndex<T>(s: seq<T>, a: nat, k: nat)
    requires k < a <= |s|
    ensures s[..a][k] == s[k]
  {
  }
}
