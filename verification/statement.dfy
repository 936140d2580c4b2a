/** A parameterised SQL statement in place of the squirrel builder's output:
    the clause fragments in order, and the bound arguments in placeholder
    order. The fragments that carry a placeholder (a WHERE predicate, an
    inserted column, a SET column) pair with the arguments by index.
    Rendering to SQL text is left to the library. */
module Statements {
  import opened Values

  /** squirrel's Eq, NotEq, Gt, GtOrEq, Lt, LtOrEq, Like and NotLike. */
  datatype Pred = Eq | NotEq | Gt | GtOrEq | Lt | LtOrEq | Like | NotLike

  /** Identifier text in a fragment is already quoted. */
  datatype Fragment =
    | SelectColumns(columns: seq<string>)
    | SelectCount
    | From(table: string)
    | Where(column: string, pred: Pred)
    | OrderBy(clause: string)
    | Limit(count: nat)
    | Offset(count: nat)
    | InsertInto(table: string)
    | InsertColumn(column: string)
    | UpdateTable(table: string)
    | Set(column: string)
    | DeleteFrom(table: string)

  datatype Statement = Statement(fragments: seq<Fragment>, args: seq<Value>)

  predicate BindsArg(f: Fragment) {
    f.Where? || f.InsertColumn? || f.Set?
  }

  predicate IsWhere(f: Fragment) { f.Where? }
  predicate IsOrderBy(f: Fragment) { f.OrderBy? }
  predicate IsLimit(f: Fragment) { f.Limit? }
  predicate IsOffset(f: Fragment) { f.Offset? }

  /** The fragments satisfying `p`, in order. */
  function Keep(fs: seq<Fragment>, p: Fragment -> bool): (r: seq<Fragment>)
    ensures |r| <= |fs|
    ensures forall i | 0 <= i < |r| :: p(r[i])
  {
    if |fs| == 0 then [] else (if p(fs[0]) then [fs[0]] else []) + Keep(fs[1..], p)
  }

  lemma {:induction false} KeepAppend(a: seq<Fragment>, b: seq<Fragment>, p: Fragment -> bool)
    ensures Keep(a + b, p) == Keep(a, p) + Keep(b, p)
    decreases |a|
  {
    if |a| > 0 {
      assert (a + b)[1..] == a[1..] + b;
      KeepAppend(a[1..], b, p);
    } else {
      assert a + b == b;
    }
  }

  lemma KeepCons(f: Fragment, fs: seq<Fragment>, p: Fragment -> bool)
    ensures Keep([f] + fs, p) == (if p(f) then [f] else []) + Keep(fs, p)
  {
    assert ([f] + fs)[1..] == fs;
  }

  lemma {:induction false} KeepAll(fs: seq<Fragment>, p: Fragment -> bool)
    requires forall i | 0 <= i < |fs| :: p(fs[i])
    ensures Keep(fs, p) == fs
    decreases |fs|
  {
    if |fs| > 0 {
      KeepAll(fs[1..], p);
    }
  }

  lemma {:induction false} KeepNone(fs: seq<Fragment>, p: Fragment -> bool)
    requires forall i | 0 <= i < |fs| :: !p(fs[i])
    ensures Keep(fs, p) == []
    decreases |fs|
  {
    if |fs| > 0 {
      KeepNone(fs[1..], p);
    }
  }

  /** The placeholder-carrying fragments, in the order their arguments bind. */
  function Slots(fs: seq<Fragment>): seq<Fragment> {
    Keep(fs, BindsArg)
  }

  /** Every placeholder has exactly one bound argument. */
  predicate Aligned(st: Statement) {
    |Slots(st.fragments)| == |st.args|
  }
}
