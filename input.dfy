/** The input records a select widget is built from: the IOption interface. */
module Input {

  /** A value that may be absent; stands for JavaScript's null/undefined. */
  datatype Maybe<T> = None | Some(value: T)

  /** The items of an array that may be null or undefined, which option-list.ts reads as empty. */
  function Items<T>(a: Maybe<seq<T>>): (r: seq<T>)
    ensures a.None? ==> r == []
    ensures a.Some? ==> r == a.value
  {
    if a.Some? then a.value else []
  }

  /**
   * The `children` property of a record: not an own property at all, present but null/undefined,
   * or present with an array of records.
   */
  datatype Children = Absent | Null | Present(items: seq<Record>)

  /**
   * One input record; `labelText` is its `label` property. `disabled` is the truthiness of the
   * optional flag, so an absent flag reads as false.
   */
  datatype Record = Record(value: string, labelText: string, disabled: bool, children: Children)

  /** The array an Option hands to the constructor of its child list (projects/ng-select/src/lib/option.ts:23-25). */
  function ChildInput(r: Record): (a: Maybe<seq<Record>>)
    requires !r.children.Absent?
    ensures Items(a) == (if r.children.Present? then r.children.items else [])
  {
    if r.children.Present? then Some(r.children.items) else None
  }

  /** Number of records in the tree rooted at `r`; the measure construction recurses on. */
  function Size(r: Record): (n: nat)
    ensures n >= 1
  {
    1 + if r.children.Present? then SizeAll(r.children.items) else 0
  }

  /** Number of records in all the trees rooted at `rs`. */
  function SizeAll(rs: seq<Record>): nat
  {
    if rs == [] then 0 else Size(rs[0]) + SizeAll(rs[1..])
  }

  /** Each record of a list is no bigger than the whole list. */
  lemma {:induction false} SizeAllBound(rs: seq<Record>, i: nat)
    requires i < |rs|
    ensures Size(rs[i]) <= SizeAll(rs)
  {
    if i > 0 {
      SizeAllBound(rs[1..], i - 1);
    }
  }
}
