/** The direction table shared by the agent and the planner: each heading
    letter maps to a (row, column) delta, and the inverse table maps a delta
    back to its heading. */
module Utils {

  /** A grid position, (row, column). */
  type Pos = (int, int)

  /** Python's `Optional`: a value or `None`. */
  datatype Option<T> = None | Some(value: T)

  /** A (row, column) displacement. */
  type Delta = (int, int)

  /** Heading letter to (row, column) delta. */
  const Directions: map<char, Delta> := map['N' := (-1, 0), 'S' := (1, 0), 'E' := (0, 1), 'W' := (0, -1)]

  /** The order in which the table's entries are written, which is the order
      in which iterating over the table visits them. */
  const Order: seq<char> := ['N', 'S', 'E', 'W']

  /** The inverse table: iterating over `Directions` in order, every entry
      (d, v) is stored as v -> d, a later entry replacing an earlier one with
      the same delta. */
  const DeltaToDir: map<Delta, char> := Inverted(Order)

  /** The inverse of the entries of `Directions` named by `ds`, built in the
      order of `ds`. */
  function Inverted(ds: seq<char>): map<Delta, char>
    requires forall d :: d in ds ==> d in Directions
  {
    if ds == [] then map[]
    else Inverted(ds[..|ds| - 1])[Directions[ds[|ds| - 1]] := ds[|ds| - 1]]
  }

  function Abs(x: int): nat { if x < 0 then -x else x }

  /** The position one step from `p` along `d`. */
  function Step(p: Pos, d: Delta): Pos { (p.0 + d.0, p.1 + d.1) }

  /** The displacement that takes `p` to `q`. */
  function Diff(p: Pos, q: Pos): Delta { (q.0 - p.0, q.1 - p.1) }

  /** Stepping by the displacement from `p` to `q` lands on `q`. */
  lemma StepDiff(p: Pos, q: Pos)
    ensures Step(p, Diff(p, q)) == q
  {
  }

  /** The displacement of one step by `d` is `d`. */
  lemma DiffStep(p: Pos, d: Delta)
    ensures Diff(p, Step(p, d)) == d
  {
  }

  /** A delta of one cell in one of the four compass directions. */
  predicate IsUnit(d: Delta) { Abs(d.0) + Abs(d.1) == 1 }

  /** `p` and `q` are 4-neighbours. */
  predicate Adjacent(p: Pos, q: Pos) { IsUnit(Diff(p, q)) }

  /** The table has exactly the four compass letters as keys, and iterating
      over it visits each of them once, in the order N, S, E, W. */
  lemma DirectionsKeys()
    ensures Directions.Keys == {'N', 'S', 'E', 'W'}
    ensures |Order| == 4 && (forall d :: d in Order <==> d in Directions)
    ensures forall a, b :: 0 <= a < b < |Order| ==> Order[a] != Order[b]
  {
  }

  /** Every delta of the table is a single step in one compass direction,
      and the four deltas are pairwise distinct. */
  lemma DirectionsAreUnitSteps()
    ensures forall d :: d in Directions ==> IsUnit(Directions[d])
    ensures forall d, e :: d in Directions && e in Directions && d != e ==> Directions[d] != Directions[e]
  {
  }

  /** North undoes South and East undoes West. */
  lemma DirectionsOpposite()
    ensures Directions['N'] == (-Directions['S'].0, -Directions['S'].1)
    ensures Directions['E'] == (-Directions['W'].0, -Directions['W'].1)
  {
  }

  /** The inverse table written out. */
  lemma DeltaToDirTable()
    ensures DeltaToDir == map[(-1, 0) := 'N', (1, 0) := 'S', (0, 1) := 'E', (0, -1) := 'W']
  {
    var ns, nse := ['N', 'S'], ['N', 'S', 'E'];
    assert ns[..1] == ['N'] && ['N'][..0] == [];
    assert nse[..2] == ns && Order[..3] == nse;
    assert Inverted(['N']) == map[(-1, 0) := 'N'];
    assert Inverted(ns) == map[(-1, 0) := 'N', (1, 0) := 'S'];
    assert Inverted(nse) == map[(-1, 0) := 'N', (1, 0) := 'S', (0, 1) := 'E'];
  }

  /** The inverse table has exactly the four unit deltas as keys, and so
      has four entries. */
  lemma DeltaToDirKeys()
    ensures DeltaToDir.Keys == {(-1, 0), (1, 0), (0, 1), (0, -1)}
    ensures |DeltaToDir| == 4
    ensures forall v :: v in DeltaToDir <==> IsUnit(v)
  {
    DeltaToDirTable();
    forall v | IsUnit(v) ensures v in {(-1, 0), (1, 0), (0, 1), (0, -1)} {
      if v.0 == 0 {
        assert v.1 == 1 || v.1 == -1;
      } else {
        assert v.1 == 0 && (v.0 == 1 || v.0 == -1);
      }
    }
  }

  /** The two tables are inverse to each other, in both directions. */
  lemma DeltaToDirInverse()
    ensures forall d :: d in Directions ==> Directions[d] in DeltaToDir && DeltaToDir[Directions[d]] == d
    ensures forall v :: v in DeltaToDir ==> DeltaToDir[v] in Directions && Directions[DeltaToDir[v]] == v
  {
    DeltaToDirTable();
    assert Directions.Keys == {'N', 'S', 'E', 'W'};
  }
}
