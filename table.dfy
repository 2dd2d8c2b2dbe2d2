/** The population table: rows of (state, year, population) in the order the CSV file
    lists them, read once at start-up and never changed, and the boolean-mask row
    selection `df[mask]` that every query of the dashboard is built from. */
module Table {

  datatype Record = Record(state: string, year: int, population: nat)

  /** `df[mask]`: the rows the mask keeps, in table order. */
  function Where(t: seq<Record>, keep: Record -> bool): seq<Record> {
    if t == [] then []
    else Where(t[..|t| - 1], keep) + (if keep(t[|t| - 1]) then [t[|t| - 1]] else [])
  }

  /** A row is selected exactly when it is in the table and the mask keeps it. */
  lemma {:induction false} WhereMembers(t: seq<Record>, keep: Record -> bool)
    ensures forall x :: x in Where(t, keep) <==> x in t && keep(x)
  {
    if t != [] {
      var p, x := t[..|t| - 1], t[|t| - 1];
      WhereMembers(p, keep);
      assert t == p + [x];
    }
  }

  /** The positions of the rows the mask keeps, in increasing order. */
  ghost function Positions(t: seq<Record>, keep: Record -> bool): seq<nat> {
    if t == [] then []
    else Positions(t[..|t| - 1], keep) + (if keep(t[|t| - 1]) then [|t| - 1] else [])
  }

  /** The positions are those of the kept rows, all of them, each once, in increasing order. */
  lemma {:induction false} PositionsExact(t: seq<Record>, keep: Record -> bool)
    ensures forall j :: 0 <= j < |Positions(t, keep)| ==>
      Positions(t, keep)[j] < |t| && keep(t[Positions(t, keep)[j]])
    ensures forall j, j' :: 0 <= j < j' < |Positions(t, keep)| ==>
      Positions(t, keep)[j] < Positions(t, keep)[j']
    ensures forall k :: 0 <= k < |t| && keep(t[k]) ==> k in Positions(t, keep)
  {
    if t != [] {
      var p := t[..|t| - 1];
      PositionsExact(p, keep);
      var ps := Positions(p, keep);
      assert Positions(t, keep) == ps + (if keep(t[|t| - 1]) then [|t| - 1] else []);
      forall k | 0 <= k < |p| ensures t[k] == p[k] {}
    }
  }

  /** The selection holds exactly the kept rows, one entry per kept position, in source order. */
  lemma {:induction false} WhereAtPositions(t: seq<Record>, keep: Record -> bool)
    ensures |Where(t, keep)| == |Positions(t, keep)|
    ensures forall j :: 0 <= j < |Positions(t, keep)| ==>
      Positions(t, keep)[j] < |t| && Where(t, keep)[j] == t[Positions(t, keep)[j]]
  {
    PositionsExact(t, keep);
    if t != [] {
      var p, x := t[..|t| - 1], t[|t| - 1];
      WhereAtPositions(p, keep);
      var w, ps := Where(p, keep), Positions(p, keep);
      assert Where(t, keep) == w + (if keep(x) then [x] else []);
      assert Positions(t, keep) == ps + (if keep(x) then [|t| - 1] else []);
      forall j | 0 <= j < |Positions(t, keep)|
        ensures Where(t, keep)[j] == t[Positions(t, keep)[j]]
      {
        if j < |ps| {
          assert Where(t, keep)[j] == w[j];
          assert Positions(t, keep)[j] == ps[j];
          assert t[ps[j]] == p[ps[j]];
        } else {
          assert Where(t, keep)[j] == x;
          assert Positions(t, keep)[j] == |t| - 1;
        }
      }
    }
  }

  /** The first kept row is the kept row of smallest position. */
  lemma FirstKept(t: seq<Record>, keep: Record -> bool, k: nat)
    requires k < |t| && keep(t[k])
    requires forall j :: 0 <= j < k ==> !keep(t[j])
    ensures |Where(t, keep)| > 0 && Where(t, keep)[0] == t[k]
  {
    WhereAtPositions(t, keep);
    PositionsExact(t, keep);
    var ps := Positions(t, keep);
    assert k in ps;
    assert ps[0] >= k;
  }
}
