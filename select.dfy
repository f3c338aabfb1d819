/**
 * The select widget's option tree: class Option (projects/ng-select/src/lib/option.ts) and class
 * OptionList (src/option-list.ts). The two classes refer to each other, so they share a module.
 *
 * The tree is fixed once built: an Option's record and child list and an OptionList's options are
 * `const`. What changes are the four flags of an Option and the `highlightedOption` and `hasShown` fields
 * of an OptionList. `Opts` is every Option at or below an object, `Lists` every OptionList at or
 * below it, and `depth` bounds the height of the tree for termination.
 */
module Select {
  import opened Input
  import opened Text
  import opened Marks

  /** Every Option in the subtrees of `s`. */
  ghost function OptsOf(s: seq<Option>): set<Option>
  {
    if s == [] then {} else OptsOf(s[..|s| - 1]) + s[|s| - 1].Opts
  }

  /** Every OptionList in the subtrees of `s`. */
  ghost function ListsOf(s: seq<Option>): set<OptionList>
  {
    if s == [] then {} else ListsOf(s[..|s| - 1]) + s[|s| - 1].Lists
  }

  lemma {:induction false} OptsOfMember(s: seq<Option>, x: Option)
    ensures x in OptsOf(s) <==> exists i :: 0 <= i < |s| && x in s[i].Opts
  {
    if s != [] {
      OptsOfMember(s[..|s| - 1], x);
      if x in OptsOf(s[..|s| - 1]) {
        var i :| 0 <= i < |s| - 1 && x in s[..|s| - 1][i].Opts;
        assert x in s[i].Opts;
      }
    }
  }

  lemma {:induction false} ListsOfMember(s: seq<Option>, m: OptionList)
    ensures m in ListsOf(s) <==> exists i :: 0 <= i < |s| && m in s[i].Lists
  {
    if s != [] {
      ListsOfMember(s[..|s| - 1], m);
      if m in ListsOf(s[..|s| - 1]) {
        var i :| 0 <= i < |s| - 1 && m in s[..|s| - 1][i].Lists;
        assert m in s[i].Lists;
      }
    }
  }

  lemma OptsOfPrefix(s: seq<Option>, i: nat)
    requires i < |s|
    ensures OptsOf(s[..i + 1]) == OptsOf(s[..i]) + s[i].Opts
    ensures ListsOf(s[..i + 1]) == ListsOf(s[..i]) + s[i].Lists
  {
    assert s[..i + 1][..i] == s[..i];
  }

  /** The `shown` flags of `s`, position by position. */
  function ShownMarks(s: seq<Option>): (r: seq<bool>)
    reads s`shown
    ensures |r| == |s| && forall i :: 0 <= i < |s| ==> r[i] == s[i].shown
  {
    if s == [] then [] else ShownMarks(s[..|s| - 1]) + [s[|s| - 1].shown]
  }

  /** The `selected` flags of `s`, position by position. */
  function SelectedMarks(s: seq<Option>): (r: seq<bool>)
    reads s`selected
    ensures |r| == |s| && forall i :: 0 <= i < |s| ==> r[i] == s[i].selected
  {
    if s == [] then [] else SelectedMarks(s[..|s| - 1]) + [s[|s| - 1].selected]
  }

  /** The `highlighted` flags of `s`, position by position. */
  function HighlightedMarks(s: seq<Option>): (r: seq<bool>)
    reads s`highlighted
    ensures |r| == |s| && forall i :: 0 <= i < |s| ==> r[i] == s[i].highlighted
  {
    if s == [] then [] else HighlightedMarks(s[..|s| - 1]) + [s[|s| - 1].highlighted]
  }

  /** The options of `s` whose `shown` flag is set, in order (the `filtered` getter). */
  function ShownOf(s: seq<Option>): (r: seq<Option>)
    reads s`shown
    ensures forall i :: 0 <= i < |r| ==> r[i] in s && r[i].shown
    ensures forall i :: 0 <= i < |s| && s[i].shown ==> s[i] in r
    ensures |r| <= |s|
    ensures Distinct(s) ==> InOrder(r, s)
  {
    if s == [] then []
    else
      var keep := s[|s| - 1].shown;
      InOrderSnoc(ShownOf(s[..|s| - 1]), s, keep);
      ShownOf(s[..|s| - 1]) + (if keep then [s[|s| - 1]] else [])
  }

  /** The options of `s` whose `selected` flag is set, in order (the `selection` getter). */
  function SelectedOf(s: seq<Option>): (r: seq<Option>)
    reads s`selected
    ensures forall i :: 0 <= i < |r| ==> r[i] in s && r[i].selected
    ensures forall i :: 0 <= i < |s| && s[i].selected ==> s[i] in r
    ensures |r| <= |s|
    ensures Distinct(s) ==> InOrder(r, s)
  {
    if s == [] then []
    else
      var keep := s[|s| - 1].selected;
      InOrderSnoc(SelectedOf(s[..|s| - 1]), s, keep);
      SelectedOf(s[..|s| - 1]) + (if keep then [s[|s| - 1]] else [])
  }

  /** The options of `s` whose value is `value`, in order. */
  function WithValue(s: seq<Option>, value: string): (r: seq<Option>)
    ensures forall i :: 0 <= i < |r| ==> r[i] in s && r[i].Value() == value
    ensures forall i :: 0 <= i < |s| && s[i].Value() == value ==> s[i] in r
    ensures |r| <= |s|
    ensures Distinct(s) ==> InOrder(r, s)
  {
    if s == [] then []
    else
      var keep := s[|s| - 1].Value() == value;
      InOrderSnoc(WithValue(s[..|s| - 1], value), s, keep);
      WithValue(s[..|s| - 1], value) + (if keep then [s[|s| - 1]] else [])
  }

  /**
   * The option `highlight` finally points at for a candidate `o`: when the candidate has a
   * non-empty child list, the first option of that list instead (src/option-list.ts:180-182).
   */
  function Descend(o: Option?): (r: Option?)
    ensures r == null <==> o == null
    ensures o != null && o.HasChildren() ==> r == o.children.options[0]
    ensures o != null && !o.HasChildren() ==> r == o
  {
    if o != null && o.HasChildren() then o.children.options[0] else o
  }

  /**
   * The option `highlight` considers before descending, given the shown and selected marks of
   * `opts`: the first shown and selected option if there is one, otherwise the first shown
   * option, otherwise none.
   */
  function Candidate(opts: seq<Option>, shown: seq<bool>, selected: seq<bool>): (r: Option?)
    requires |shown| == |opts| && |selected| == |opts|
    ensures r == null <==> forall i :: 0 <= i < |opts| ==> !shown[i]
    ensures (exists i :: 0 <= i < |opts| && shown[i] && selected[i]) ==>
      exists i :: 0 <= i < |opts| && r == opts[i] && shown[i] && selected[i] &&
        forall j :: 0 <= j < i ==> !(shown[j] && selected[j])
    ensures (forall i :: 0 <= i < |opts| ==> !(shown[i] && selected[i])) && r != null ==>
      exists i :: 0 <= i < |opts| && r == opts[i] && shown[i] && forall j :: 0 <= j < i ==> !shown[j]
  {
    var k := FirstTrue(Both(shown, selected));
    var first := if k >= 0 then k else FirstTrue(shown);
    if first >= 0 then opts[first] else null
  }

  /** The choice `highlight` makes: the candidate, then Descend. */
  function Pick(opts: seq<Option>, shown: seq<bool>, selected: seq<bool>): (r: Option?)
    requires |shown| == |opts| && |selected| == |opts|
    ensures r == null <==> forall i :: 0 <= i < |opts| ==> !shown[i]
  {
    Descend(Candidate(opts, shown, selected))
  }

  /** With every option shown and none selected, `highlight` picks the first option. */
  lemma PickUntouched(opts: seq<Option>, shown: seq<bool>, selected: seq<bool>)
    requires |opts| > 0 && |shown| == |opts| && |selected| == |opts|
    requires forall i :: 0 <= i < |opts| ==> shown[i] && !selected[i]
    ensures Pick(opts, shown, selected) == Descend(opts[0])
  {
    assert FirstTrue(Both(shown, selected)) == -1;
    assert FirstTrue(shown) == 0;
  }

  class Option {
    const wrappedOption: Record
    var disabled: bool
    var highlighted: bool
    var selected: bool
    var shown: bool
    const children: OptionList?

    ghost const Opts: set<Option>
    ghost const Lists: set<OptionList>
    ghost const depth: nat

    ghost predicate Valid()
      decreases depth, 0
    {
      this in Opts &&
      if children == null then Opts == {this} && Lists == {}
      else
        children.depth < depth && this !in children.Opts &&
        Opts == {this} + children.Opts && Lists == children.Lists && children.Valid()
    }

    /**
     * A fresh option wraps its record, is shown, unselected, unhighlighted and enabled, and has
     * a child list, built as a nested list, exactly when the record has a `children` property.
     */
    constructor (option: Record)
      ensures Valid() && fresh(Opts) && fresh(Lists)
      ensures BuiltFrom(option)
      ensures !disabled
      ensures forall x :: x in Opts ==> x.shown && !x.selected && !x.highlighted
      ensures forall x :: x in Opts && x != this ==> x.disabled == x.wrappedOption.disabled
      ensures forall m :: m in Lists ==> m.highlightedOption == null && m.hasShown == (|m.options| > 0)
      decreases Size(option), 0
    {
      wrappedOption := option;
      disabled := false;
      highlighted := false;
      selected := false;
      shown := true;
      var c: OptionList? := null;
      if !option.children.Absent? {
        c := new OptionList(ChildInput(option), true);
      }
      children := c;
      depth := if c == null then 0 else c.depth + 1;
      Opts := if c == null then {this} else {this} + c.Opts;
      Lists := if c == null then {} else c.Lists;
    }

    /**
     * This option wraps `r`, and it has a child list exactly when `r` has a `children` property:
     * a nested list built from those records, at every depth.
     */
    ghost predicate BuiltFrom(r: Record)
      requires Valid()
      decreases depth, 1
    {
      wrappedOption == r &&
      (children != null <==> !r.children.Absent?) &&
      (children != null ==> children.isChild && children.Built(Items(ChildInput(r))))
    }

    function Value(): string
    {
      wrappedOption.value
    }

    function Label(): string
    {
      wrappedOption.labelText
    }

    /** The option has a child list and that list is not empty. */
    predicate HasChildren()
    {
      children != null && |children.options| > 0
    }

    /** Flags and `highlightedOption` fields of this tree that filter reads, kept, keep its filter state. */
    twostate lemma Kept(new terms: seq<string>, new norm: string -> string)
      requires Valid()
      requires forall x :: x in Opts ==> x.shown == old(x.shown) && x.selected == old(x.selected)
      requires forall l :: l in Lists ==>
        l.hasShown == old(l.hasShown) && l.highlightedOption == old(l.highlightedOption)
      ensures Pending(this, terms, norm) <==> old(Pending(this, terms, norm))
      ensures OptionWrites(this, terms, norm) == old(OptionWrites(this, terms, norm))
      ensures HasChildren() ==> (Refreshed(children, terms, norm) <==> old(Refreshed(children, terms, norm)))
    {
      if HasChildren() {
        RefreshedKept(children, terms, norm);
      }
    }

    /** Some option strictly below this one is selected; this option's own flag does not count. */
    function HasSelected(): (r: bool)
      requires Valid()
      reads Opts`selected
      ensures r <==> exists x :: x in Opts && x != this && x.selected
      decreases depth, 3
    {
      if children != null then children.HasSelected() else false
    }

    /** The selected options strictly below this one; Option.getSelected reads the child list unguarded. */
    function GetSelected(): (r: seq<Option>)
      requires Valid() && children != null
      reads Opts`selected
      ensures forall i :: 0 <= i < |r| ==> r[i] in Opts && r[i] != this && r[i].selected
      ensures forall x :: x in Opts && x != this && x.selected ==> x in r
      ensures Distinct(r)
      decreases depth, 3
    {
      children.GetSelected()
    }

    /**
     * The order of `getSelected` on an option is its child list's: the selected options of that
     * list first, in list order, then for each of them in turn the selection below it.
     */
    lemma SelectedOrder()
      requires Valid() && children != null
      ensures children.Selection() <= GetSelected()
      ensures children.Grouped(GetSelected()[|children.Selection()|..])
      ensures forall j :: 0 <= j < |children.options| ==>
        Within(GetSelected()[|children.Selection()|..], children.options[j].Opts) == children.SelectedUnder(j)
    {
      assert children.Valid();
      children.SelectedOrder();
    }

    /**
     * Deselects this option and everything below it. Only this option is reported; what the
     * child list reports is dropped, as option.ts drops the result of `concat`.
     */
    method ClearSelection() returns (deselected: seq<Option>)
      requires Valid()
      modifies Opts`selected
      ensures deselected == if old(selected) then [this] else []
      ensures forall x :: x in Opts ==> !x.selected
      decreases depth, 1
    {
      deselected := [];
      if selected {
        selected := false;
        deselected := deselected + [this];
      }
      if HasChildren() {
        var dropped := children.ClearSelection();
      }
    }

    /** Selects this option and every option below it exactly when its value is in `v`. */
    method SetSelected(v: seq<string>)
      requires Valid()
      modifies Opts`selected
      ensures forall x :: x in Opts ==> x.selected == (x.Value() in v)
      decreases depth, 1
    {
      selected := PositionOf(v, Value()) > -1;
      if HasChildren() {
        children.SetValue(Some(v));
      }
    }
  }

  /** `v.indexOf(value)` on an array of strings: the first position holding `value`, or -1. */
  function PositionOf(v: seq<string>, value: string): (r: int)
    ensures -1 <= r < |v|
    ensures r >= 0 ==> v[r] == value && value !in v[..r]
    ensures r == -1 <==> value !in v
  {
    if v == [] then -1
    else if v[0] == value then 0
    else
      var k := PositionOf(v[1..], value);
      assert v == [v[0]] + v[1..];
      if k == -1 then -1 else (assert v[..k + 1] == [v[0]] + v[1..][..k]; k + 1)
  }

  /**
   * The option `d` places from position `k` of `f`, or null when `k` is -1 (nothing flagged) or
   * the move leaves `f`.
   */
  function Step(f: seq<Option>, k: int, d: int): (r: Option?)
    ensures r != null <==> 0 <= k && 0 <= k + d < |f|
    ensures r != null ==> r == f[k + d]
  {
    if 0 <= k && 0 <= k + d < |f| then f[k + d] else null
  }

  /** The flag writes of `highlightOption(o)` when the `highlightedOption` was `p`: clear `p`, then set `o`. */
  function Lit(p: Option?, o: Option?): seq<Write<Option?>>
  {
    (if p == null then [] else [Write(p, false)]) + (if o == null then [] else [Write(o, true)])
  }

  /** After `highlightOption(o)`, `o` is flagged, the old target `p` is not, the rest is as it was. */
  lemma LitEffect(p: Option?, o: Option?, x: Option, b: bool)
    ensures Replay(Lit(p, o), x, b) == (x == o || (x != p && b))
  {
    var w := Lit(p, o);
    var cleared: seq<Write<Option?>> := if p == null then [] else [Write(p, false)];
    if p != null {
      assert Replay(cleared, x, b) == (x != p && b) by {
        assert cleared[..|cleared| - 1] == [];
      }
    }
    if o != null {
      assert w[|w| - 1] == Write(o, true) && w[..|w| - 1] == cleared;
    } else {
      assert w == cleared;
    }
  }

  /** Every option of the subtree of `o` is as a new list leaves it, and so is every list in it. */
  ghost predicate Pristine(o: Option)
    reads o.Opts, o.Lists
  {
    (forall x :: x in o.Opts ==> x.shown && !x.selected && !x.highlighted && x.disabled == x.wrappedOption.disabled) &&
    (forall m :: m in o.Lists ==> m.highlightedOption == null && m.hasShown == (|m.options| > 0))
  }

  /**
   * filter's test of one option against the terms: every normalised term occurs in the
   * normalised label (src/option-list.ts:123-129). `norm` stands for Diacritics.strip followed
   * by toUpperCase.
   */
  function Hit(o: Option, terms: seq<string>, norm: string -> string): bool
  {
    MatchesAll(norm(o.Label()), terms, norm)
  }

  /** The option matches, or some option of its non-empty child list reaches a match. */
  function Reach(o: Option, terms: seq<string>, norm: string -> string): bool
    requires o.Valid()
    decreases o.depth, 1
  {
    Hit(o, terms, norm) || (o.HasChildren() && AnyReach(o.children, |o.children.options|, terms, norm))
  }

  /** Some option among the first `k` of `m` reaches a match. */
  function AnyReach(m: OptionList, k: nat, terms: seq<string>, norm: string -> string): (r: bool)
    requires m.Valid() && k <= |m.options|
    ensures r <==> exists j :: 0 <= j < k && Reach(m.options[j], terms, norm)
    decreases m.depth, 0, k
  {
    if k == 0 then false else AnyReach(m, k - 1, terms, norm) || Reach(m.options[k - 1], terms, norm)
  }

  /** What filter returns for `m` on a non-blank search. */
  function Result(m: OptionList, terms: seq<string>, norm: string -> string): bool
    requires m.Valid()
  {
    AnyReach(m, |m.options|, terms, norm)
  }

  /** Reach of each option of `s`, position by position. */
  function ReachMarks(s: seq<Option>, terms: seq<string>, norm: string -> string): (r: seq<bool>)
    requires forall i :: 0 <= i < |s| ==> s[i].Valid()
    ensures |r| == |s| && forall i :: 0 <= i < |s| ==> r[i] == Reach(s[i], terms, norm)
  {
    if s == [] then [] else ReachMarks(s[..|s| - 1], terms, norm) + [Reach(s[|s| - 1], terms, norm)]
  }

  /** Where filter leaves the `highlightedOption` of `m` on a non-blank search. */
  function Target(m: OptionList, terms: seq<string>, norm: string -> string): Option?
    requires m.Valid()
    reads m.options`selected
  {
    Pick(m.options, ReachMarks(m.options, terms, norm), SelectedMarks(m.options))
  }

  /** The i-th option of a valid list, and its child list, lie within the list's tree. */
  lemma ChildFrames(m: OptionList, i: nat)
    requires m.Valid() && i < |m.options|
    ensures var o := m.options[i];
      o.Valid() && o in m.Opts && o.Opts <= m.Opts && o.Lists <= m.Lists && o.depth < m.depth &&
      (o.children != null ==>
        o.children.Valid() && o.children in m.Lists && o.children.Opts <= m.Opts &&
        o.children.Lists <= m.Lists && o.children.depth < m.depth)
  {
    var o := m.options[i];
    assert o.Valid();
    if o.children != null {
      assert o.children.Valid();
      assert o.children in o.children.Lists;
    }
  }

  /** Every option of `m`'s tree is shown. */
  ghost predicate AllShown(m: OptionList)
    reads m.Opts`shown
  {
    forall x :: x in m.Opts ==> x.shown
  }

  /**
   * The `shown` flags filter leaves in `m`'s tree on a non-blank search: each option is shown
   * when it reaches a match; below a matching option everything is shown, below any other
   * option the child list is filtered in the same way.
   */
  ghost predicate FilteredBy(m: OptionList, terms: seq<string>, norm: string -> string)
    requires m.Valid()
    reads m.Opts`shown
    decreases m.depth, 1
  {
    forall i :: 0 <= i < |m.options| ==> Settled(m.options[i], terms, norm)
  }

  /** One option and its subtree as filter leaves them (see FilteredBy). */
  ghost predicate Settled(o: Option, terms: seq<string>, norm: string -> string)
    requires o.Valid()
    reads o.Opts`shown
    decreases o.depth, 0
  {
    o.shown == Reach(o, terms, norm) &&
    (o.HasChildren() ==>
      if Hit(o, terms, norm) then AllShown(o.children) else FilteredBy(o.children, terms, norm))
  }

  /** One option and its subtree after the first pass of filter, before the second. */
  ghost predicate Pending(o: Option, terms: seq<string>, norm: string -> string)
    requires o.Valid()
    reads o.Opts`shown
  {
    o.shown == Hit(o, terms, norm) && (o.HasChildren() ==> FilteredBy(o.children, terms, norm))
  }

  /**
   * The `highlightedOption` and `hasShown` that filter leaves in every list of `m`'s tree that it filters
   * (`m` itself and every non-empty nested list).
   */
  ghost predicate Refreshed(m: OptionList, terms: seq<string>, norm: string -> string)
    requires m.Valid()
    reads m.Lists`hasShown, m.Lists`highlightedOption, m.Opts`selected
  {
    forall l :: l in m.Live() ==>
      l.Valid() && l.Opts <= m.Opts &&
      l.hasShown == Result(l, terms, norm) && l.highlightedOption == Target(l, terms, norm)
  }

  /**
   * The flag writes of a non-blank filter of `m`, in order: the filters of the non-empty child
   * lists, then `m`'s own `highlight`.
   */
  ghost function FilterWrites(m: OptionList, terms: seq<string>, norm: string -> string): seq<Write<Option?>>
    requires m.Valid()
    reads m.Lists`highlightedOption, m.Opts`selected
    decreases m.depth, 1
  {
    ChildWrites(m, |m.options|, terms, norm) + Lit(m.highlightedOption, Target(m, terms, norm))
  }

  /** A filter's writes: those of the child-list filters, then the final highlight. */
  lemma FilterWritesSplit(m: OptionList, terms: seq<string>, norm: string -> string)
    requires m.Valid()
    ensures FilterWrites(m, terms, norm) ==
      ChildWrites(m, |m.options|, terms, norm) + Lit(m.highlightedOption, Target(m, terms, norm))
  {
  }

  /** The flag writes of the child-list filters among the first `k` options of `m`. */
  ghost function ChildWrites(m: OptionList, k: nat, terms: seq<string>, norm: string -> string): seq<Write<Option?>>
    requires m.Valid() && k <= |m.options|
    reads m.Lists`highlightedOption, m.Opts`selected
    decreases m.depth, 0, k
  {
    if k == 0 then []
    else
      var o := m.options[k - 1];
      ChildFrames(m, k - 1);
      ChildWrites(m, k - 1, terms, norm) + if o.HasChildren() then FilterWrites(o.children, terms, norm) else []
  }

  /** The writes of a filter of `m` only touch options of `m`'s tree. */
  lemma {:induction false} WritesInside(m: OptionList, terms: seq<string>, norm: string -> string)
    requires m.Valid() && m.Linked()
    ensures forall w :: w in FilterWrites(m, terms, norm) ==> w.target != null && w.target in m.Opts
    decreases m.depth, 1
  {
    ChildWritesInside(m, |m.options|, terms, norm);
    m.PickInTree(ReachMarks(m.options, terms, norm), SelectedMarks(m.options));
  }

  lemma {:induction false} ChildWritesInside(m: OptionList, k: nat, terms: seq<string>, norm: string -> string)
    requires m.Valid() && m.Linked() && k <= |m.options|
    ensures forall w :: w in ChildWrites(m, k, terms, norm) ==> w.target != null && w.target in m.Opts
    decreases m.depth, 0, k
  {
    if k > 0 {
      ChildFrames(m, k - 1);
      ChildWritesInside(m, k - 1, terms, norm);
      var o := m.options[k - 1];
      if o.HasChildren() {
        WritesInside(o.children, terms, norm);
      }
    }
  }

  /** A filter of `m` leaves the flag of an option outside `m`'s tree as it was. */
  lemma ReplayOutside(m: OptionList, terms: seq<string>, norm: string -> string, x: Option, b: bool)
    requires m.Valid() && m.Linked() && x !in m.Opts
    ensures Replay(FilterWrites(m, terms, norm), x, b) == b
  {
    WritesInside(m, terms, norm);
    var w := FilterWrites(m, terms, norm);
    forall i | 0 <= i < |w| ensures w[i].target != x {
      assert w[i] in w;
    }
  }

  /** `options.some(option => option.shown)`. */
  function SomeShown(s: seq<Option>): (r: bool)
    reads s`shown
    ensures r <==> exists i :: 0 <= i < |s| && s[i].shown
  {
    if s == [] then false else SomeShown(s[..|s| - 1]) || s[|s| - 1].shown
  }

  /** The nested lists a filter of `o`'s subtree refreshes. */
  ghost function LiveBelow(o: Option): set<OptionList>
  {
    if o.HasChildren() then o.children.Live() else {}
  }

  /** The flag writes of the first pass of filter for one option: its child list's filter. */
  ghost function OptionWrites(o: Option, terms: seq<string>, norm: string -> string): seq<Write<Option?>>
    requires o.Valid()
    reads o.Lists`highlightedOption, o.Opts`selected
  {
    if o.HasChildren() then FilterWrites(o.children, terms, norm) else []
  }

  /** The `highlightedOption` fields, shown caches and selection of a tree, kept, keep it refreshed or not. */
  twostate lemma RefreshedKept(m: OptionList, new terms: seq<string>, new norm: string -> string)
    requires m.Valid()
    requires forall x :: x in m.Opts ==> x.selected == old(x.selected)
    requires forall l :: l in m.Lists ==>
      l.hasShown == old(l.hasShown) && l.highlightedOption == old(l.highlightedOption)
    ensures Refreshed(m, terms, norm) <==> old(Refreshed(m, terms, norm))
  {
    forall l | l in m.Live() && l.Valid() && l.Opts <= m.Opts
      ensures (l.hasShown == Result(l, terms, norm) && l.highlightedOption == Target(l, terms, norm)) ==
        old(l.hasShown == Result(l, terms, norm) && l.highlightedOption == Target(l, terms, norm))
    {
      assert forall i :: 0 <= i < |l.options| ==> l.options[i] in l.Opts;
      TargetKept(l, terms, norm);
    }
  }

  /** Target reads only the selection of the list's own options. */
  twostate lemma TargetKept(l: OptionList, new terms: seq<string>, new norm: string -> string)
    requires l.Valid()
    requires forall i :: 0 <= i < |l.options| ==> l.options[i].selected == old(l.options[i].selected)
    ensures Target(l, terms, norm) == old(Target(l, terms, norm))
  {
    assert SelectedMarks(l.options) == old(SelectedMarks(l.options));
  }

  /**
   * The first pass of filter for one option (src/option-list.ts:114-135): its non-empty child
   * list is filtered, and the option is shown exactly when its label matches. Returns whether
   * it or its child list has anything shown. (filter hides the option before filtering
   * the child list and shows it again on a match; the child filter never reads the parent's
   * flag, so one write at the end leaves the same state.)
   */
  method FilterOption(option: Option, search: string, norm: string -> string) returns (reached: bool)
    requires option.Valid() && !Blank(search)
    requires option.children != null ==> option.children.Linked()
    modifies option.Opts`shown, option.Opts`highlighted
    modifies LiveBelow(option)`highlightedOption, LiveBelow(option)`hasShown
    ensures reached == Reach(option, Terms(search), norm)
    ensures Pending(option, Terms(search), norm)
    ensures option.children != null ==> option.children.Linked()
    ensures option.HasChildren() ==> Refreshed(option.children, Terms(search), norm)
    ensures option.HasChildren() ==> forall x :: x in option.Opts ==>
      x.highlighted == Replay(old(FilterWrites(option.children, Terms(search), norm)), x, old(x.highlighted))
    ensures !option.HasChildren() ==> forall x :: x in option.Opts ==> x.highlighted == old(x.highlighted)
    decreases option.depth, 3
  {
    var terms := Terms(search);
    reached := false;
    if option.HasChildren() {
      reached := FilterChildList(option, search, norm);
    } else if option.children != null {
      assert option.children.Valid() && option.children.Opts == {};
    }
    var result := MatchesAll(norm(option.Label()), terms, norm);
    SetShown(option, result, terms, norm);
    if result {
      reached := true;
    }
  }

  /**
   * `option.shown = v`: the option's own flag changes, and nothing the filter state of its
   * child list depends on.
   */
  method SetShown(option: Option, v: bool, ghost terms: seq<string>, ghost norm: string -> string)
    requires option.Valid()
    modifies option`shown
    ensures option.shown == v
    ensures option.children != null ==>
      option.children.Linked() == old(option.children.Linked()) &&
      FilterWrites(option.children, terms, norm) == old(FilterWrites(option.children, terms, norm)) &&
      FilteredBy(option.children, terms, norm) == old(FilteredBy(option.children, terms, norm)) &&
      Refreshed(option.children, terms, norm) == old(Refreshed(option.children, terms, norm))
  {
    option.shown := v;
  }

  /** The child-list part of the first pass of filter for an option with children. */
  method FilterChildList(option: Option, search: string, norm: string -> string) returns (childShown: bool)
    requires option.Valid() && !Blank(search) && option.HasChildren() && option.children.Linked()
    modifies option.children.Opts`shown, option.children.Opts`highlighted
    modifies option.children.Live()`highlightedOption, option.children.Live()`hasShown
    ensures childShown == Result(option.children, Terms(search), norm)
    ensures option.children.Linked()
    ensures FilteredBy(option.children, Terms(search), norm)
    ensures Refreshed(option.children, Terms(search), norm)
    ensures forall x :: x in option.Opts ==>
      x.highlighted == Replay(old(FilterWrites(option.children, Terms(search), norm)), x, old(x.highlighted))
    decreases option.depth, 2
  {
    var c := option.children;
    assert c.Valid() && option !in c.Opts;
    ghost var kept := Replay(FilterWrites(c, Terms(search), norm), option, option.highlighted);
    ReplayOutside(c, Terms(search), norm, option, option.highlighted);
    childShown := c.Filter(search, norm);
    assert option.highlighted == kept;
    forall x | x in option.Opts
      ensures x.highlighted == Replay(old(FilterWrites(c, Terms(search), norm)), x, old(x.highlighted))
    {
      if x != option {
        assert x in c.Opts;
      }
    }
  }

  /**
   * The second pass of filter for one option (src/option-list.ts:137-152): a matching option
   * shows its whole subtree, any other option is shown when one of its children is.
   */
  method RevealParent(option: Option, terms: seq<string>, norm: string -> string)
    requires option.Valid() && Pending(option, terms, norm)
    modifies option.Opts`shown
    ensures Settled(option, terms, norm)
  {
    if option.HasChildren() {
      if option.shown {
        option.children.ResetFilter();
      } else {
        var hasFilterResult := SomeShown(option.children.options);
        assert hasFilterResult == AnyReach(option.children, |option.children.options|, terms, norm) by {
          var c := option.children;
          assert c.Valid();
          forall j | 0 <= j < |c.options| ensures c.options[j].shown == Reach(c.options[j], terms, norm) {
            assert Settled(c.options[j], terms, norm);
          }
        }
        if hasFilterResult {
          option.shown := true;
        }
      }
    }
  }

  class OptionList {
    const options: seq<Option>
    var highlightedOption: Option?
    var hasShown: bool
    const isChild: bool

    ghost const Opts: set<Option>
    ghost const Lists: set<OptionList>
    ghost const depth: nat

    ghost predicate Valid()
      decreases depth, 0
    {
      this in Lists &&
      (forall i :: 0 <= i < |options| ==>
         options[i].depth < depth && options[i].Valid() && this !in options[i].Lists && options[i] in Opts &&
         options[i].Opts <= Opts && options[i].Lists <= Lists) &&
      (forall i, j :: 0 <= i < j < |options| ==>
         options[i].Opts !! options[j].Opts && options[i].Lists !! options[j].Lists) &&
      Opts == OptsOf(options) && Lists == {this} + ListsOf(options)
    }

    /** The options of this list wrap the records `items`, one each, in order. */
    ghost predicate Mirrors(items: seq<Record>)
    {
      |options| == |items| && forall i :: 0 <= i < |options| ==> options[i].wrappedOption == items[i]
    }

    /** The options of this list are built from the records `items`, one each, in order, at every depth. */
    ghost predicate Built(items: seq<Record>)
      requires Valid()
      decreases depth, 2
    {
      Mirrors(items) && forall i :: 0 <= i < |options| ==> options[i].BuiltFrom(items[i])
    }

    /** Every list's `highlightedOption` is unset or points at an option in that list's tree. */
    ghost predicate Linked()
      reads Lists`highlightedOption
    {
      forall m :: m in Lists ==> m.highlightedOption == null || m.highlightedOption in m.Opts
    }

    /**
     * One option per record, in order, disabled when the record is; an absent array reads as
     * empty. A top-level list then highlights its first option (or that option's first child);
     * a nested list highlights nothing.
     */
    constructor (input: Maybe<seq<Record>>, isChild: bool)
      ensures Valid() && Linked() && fresh(Opts) && fresh(Lists)
      ensures this.isChild == isChild && Built(Items(input))
      ensures forall x :: x in Opts ==> x.shown && !x.selected && x.disabled == x.wrappedOption.disabled
      ensures forall m :: m in Lists ==> m.hasShown == (|m.options| > 0)
      ensures forall m :: m in Lists && m != this ==> m.highlightedOption == null
      ensures highlightedOption == if isChild || options == [] then null else Descend(options[0])
      ensures forall x :: x in Opts ==> x.highlighted == (x == highlightedOption)
      decreases SizeAll(Items(input)), 3
    {
      var opts: seq<Option>;
      ghost var d: nat;
      opts, d := BuildOptions(Items(input));
      this.isChild := isChild;
      options := opts;
      highlightedOption := null;
      hasShown := |opts| > 0;
      Opts := OptsOf(opts);
      Lists := {this} + ListsOf(opts);
      depth := d;
      new;
      assert forall k :: 0 <= k < |options| ==> this !in options[k].Lists;
      Assembled();
      forall x | x in Opts ensures fresh(x) {
        OptsOfMember(options, x);
      }
      forall m | m in Lists ensures fresh(m) {
        if m != this {
          ListsOfMember(options, m);
        }
      }
      if !isChild {
        HighlightFirst();
      }
    }

    /** The `highlight()` a new top-level list performs: it lands on the first option. */
    method HighlightFirst()
      requires Valid() && Linked() && highlightedOption == null
      requires forall x :: x in Opts ==> x.shown && !x.selected && !x.highlighted
      modifies this`highlightedOption, Opts`highlighted
      ensures Linked()
      ensures highlightedOption == if options == [] then null else Descend(options[0])
      ensures forall x :: x in Opts ==> x.highlighted == (x == highlightedOption)
    {
      Highlight();
      forall x | x in Opts ensures x.highlighted == (x == highlightedOption) {
        LitEffect(null, highlightedOption, x, false);
      }
      if options != [] {
        forall i | 0 <= i < |options| ensures options[i].shown && !options[i].selected {
          assert options[i] in options[i].Opts;
        }
        PickUntouched(options, ShownMarks(options), SelectedMarks(options));
      }
    }

    /** A list put together from the options BuildOptions returns is valid and untouched. */
    lemma Assembled()
      requires Opts == OptsOf(options) && Lists == {this} + ListsOf(options)
      requires forall k :: 0 <= k < |options| ==>
        options[k].Valid() && options[k].depth < depth && this !in options[k].Lists && Pristine(options[k])
      requires forall k, j :: 0 <= k < j < |options| ==>
        options[k].Opts !! options[j].Opts && options[k].Lists !! options[j].Lists
      requires highlightedOption == null && hasShown == (|options| > 0)
      ensures Valid() && Linked()
      ensures forall x :: x in Opts ==> x.shown && !x.selected && !x.highlighted && x.disabled == x.wrappedOption.disabled
      ensures forall m :: m in Lists ==> m.highlightedOption == null && m.hasShown == (|m.options| > 0)
    {
      forall i | 0 <= i < |options| ensures options[i].Opts <= Opts && options[i].Lists <= Lists {
        forall x | x in options[i].Opts ensures x in Opts {
          OptsOfMember(options, x);
        }
        forall m | m in options[i].Lists ensures m in Lists {
          ListsOfMember(options, m);
        }
      }
      forall x | x in Opts ensures x.shown && !x.selected && !x.highlighted && x.disabled == x.wrappedOption.disabled {
        OptsOfMember(options, x);
      }
      forall m | m in Lists && m != this ensures m.highlightedOption == null && m.hasShown == (|m.options| > 0) {
        ListsOfMember(options, m);
      }
    }

    /** One option of a new list: built from `r`, untouched, and disabled when `r` is. */
    static method NewOption(r: Record) returns (o: Option)
      ensures o.Valid() && fresh(o.Opts) && fresh(o.Lists) && o.BuiltFrom(r) && Pristine(o)
      decreases Size(r), 1
    {
      o := new Option(r);
      if r.disabled {
        o.disabled := true;
      }
    }

    /** The options of a new list, one per record, in order, disabled when the record is. */
    static method BuildOptions(items: seq<Record>) returns (opts: seq<Option>, ghost d: nat)
      ensures |opts| == |items|
      ensures forall k :: 0 <= k < |opts| ==>
        opts[k].Valid() && opts[k].depth < d && fresh(opts[k].Opts) && fresh(opts[k].Lists) &&
        opts[k].BuiltFrom(items[k]) && Pristine(opts[k])
      ensures forall k, j :: 0 <= k < j < |opts| ==> opts[k].Opts !! opts[j].Opts && opts[k].Lists !! opts[j].Lists
      decreases SizeAll(items), 2
    {
      opts := [];
      d := 0;
      var i := 0;
      while i < |items|
        invariant 0 <= i <= |items| && |opts| == i
        invariant forall k :: 0 <= k < i ==>
          opts[k].Valid() && opts[k].depth < d && fresh(opts[k].Opts) && fresh(opts[k].Lists) &&
          opts[k].BuiltFrom(items[k]) && Pristine(opts[k])
        invariant forall k, j :: 0 <= k < j < i ==> opts[k].Opts !! opts[j].Opts && opts[k].Lists !! opts[j].Lists
      {
        SizeAllBound(items, i);
        var o := NewOption(items[i]);
        opts := opts + [o];
        d := if d > o.depth then d else o.depth + 1;
        i := i + 1;
      }
    }

    /** The direct options whose value is `value` (`getOptionsByValue`). */
    function GetOptionsByValue(value: string): (r: seq<Option>)
      ensures forall i :: 0 <= i < |r| ==> r[i] in options && r[i].Value() == value
      ensures forall i :: 0 <= i < |options| && options[i].Value() == value ==> options[i] in r
      ensures Distinct(options) ==> InOrder(r, options)
    {
      WithValue(options, value)
    }

    /** The selected direct options, in order (the `selection` getter). */
    function Selection(): (r: seq<Option>)
      reads options`selected
      ensures forall i :: 0 <= i < |r| ==> r[i] in options && r[i].selected
      ensures forall i :: 0 <= i < |options| && options[i].selected ==> options[i] in r
      ensures Distinct(options) ==> InOrder(r, options)
    {
      SelectedOf(options)
    }

    /** The shown direct options, in order (the `filtered` getter). */
    function Filtered(): (r: seq<Option>)
      reads options`shown
      ensures forall i :: 0 <= i < |r| ==> r[i] in options && r[i].shown
      ensures forall i :: 0 <= i < |options| && options[i].shown ==> options[i] in r
      ensures Distinct(options) ==> InOrder(r, options)
    {
      ShownOf(options)
    }

    /** Some option at any depth of this list is selected. */
    function HasSelected(): (r: bool)
      requires Valid()
      reads Opts`selected
      ensures r <==> exists x :: x in Opts && x.selected
      decreases depth, 2
    {
      assert options[..|options|] == options;
      AnySelected(|options|)
    }

    /** Some option in the subtrees of the first `k` options is selected. */
    function AnySelected(k: nat): (r: bool)
      requires Valid() && k <= |options|
      reads Opts`selected
      ensures r <==> exists x :: x in OptsOf(options[..k]) && x.selected
      decreases depth, 1, k
    {
      if k == 0 then false
      else
        OptsOfPrefix(options, k - 1);
        var o := options[k - 1];
        AnySelected(k - 1) || o.selected || o.HasSelected()
    }

    /**
     * The selected options at every depth: first the selected direct options, then, for each
     * direct option with a selection below it, that option's selected descendants.
     */
    function GetSelected(): (r: seq<Option>)
      requires Valid()
      reads Opts`selected
      ensures forall i :: 0 <= i < |r| ==> r[i] in Opts && r[i].selected
      ensures forall x :: x in Opts && x.selected ==> x in r
      ensures Selection() <= r
      ensures r == [] <==> !HasSelected()
      ensures Distinct(r)
      decreases depth, 2
    {
      var r := Selection() + NestedSelected(|options|);
      SelectedDistinct(Selection(), NestedSelected(|options|));
      SelectedCovers(Selection(), NestedSelected(|options|), r);
      assert r[|Selection()|..] == NestedSelected(|options|);
      r
    }

    /**
     * The order of `getSelected` after the selected direct options: grouped by direct option in
     * array order, and, restricted to the subtree of the `j`-th direct option, exactly what that
     * option's own `getSelected` returns, in its order, or nothing when nothing below it is selected.
     */
    lemma SelectedOrder()
      requires Valid()
      ensures Grouped(GetSelected()[|Selection()|..])
      ensures forall j :: 0 <= j < |options| ==>
        Within(GetSelected()[|Selection()|..], options[j].Opts) == SelectedUnder(j)
    {
      assert GetSelected()[|Selection()|..] == NestedSelected(|options|);
      NestedGrouped(|options|);
      forall j | 0 <= j < |options|
        ensures Within(NestedSelected(|options|), options[j].Opts) == SelectedUnder(j)
      {
        NestedShare(|options|, j);
      }
    }

    /** The selected direct options and the nested selected options have no option in common. */
    lemma SelectedDistinct(s: seq<Option>, n: seq<Option>)
      requires Valid() && s == Selection() && n == NestedSelected(|options|)
      ensures Distinct(s + n)
      decreases depth, 1, |options| + 2
    {
      OptionsDistinct();
      InOrderDistinct(s, options);
      AppendDistinct(s, n);
    }

    /** Between them, the selected direct options and the nested ones are the selected options of the tree. */
    lemma SelectedCovers(s: seq<Option>, n: seq<Option>, r: seq<Option>)
      requires Valid() && s == Selection() && n == NestedSelected(|options|) && r == s + n
      ensures forall i :: 0 <= i < |r| ==> r[i] in Opts && r[i].selected
      ensures forall x :: x in Opts && x.selected ==> x in r
      ensures r != [] <==> exists x :: x in Opts && x.selected
      decreases depth, 1, |options| + 1
    {
      TreeSplit();
      forall x | x in Opts && x.selected ensures x in r {
        if x in options {
          assert x in s;
        } else {
          var j :| 0 <= j < |options| && x in options[j].Opts && x != options[j];
          assert x in n;
        }
      }
      forall i | 0 <= i < |r| ensures r[i] in Opts && r[i].selected {
        if i < |s| {
          assert r[i] == s[i];
        } else {
          assert r[i] == n[i - |s|];
        }
      }
      if r != [] {
        assert r[0] in Opts && r[0].selected;
      }
    }

    /** The direct options of a valid list are pairwise different objects. */
    lemma OptionsDistinct()
      requires Valid()
      ensures Distinct(options)
    {
      forall i, j | 0 <= i < j < |options| ensures options[i] != options[j] {
        assert options[i] in options[i].Opts && options[j] in options[j].Opts;
      }
    }

    /** An option strictly below the `j`-th direct option is not a direct option. */
    lemma BelowNotDirect(j: nat, x: Option)
      requires Valid() && j < |options| && x in options[j].Opts && x != options[j]
      ensures x !in options
    {
      forall m | 0 <= m < |options| ensures options[m] != x {
        if m != j {
          assert options[m] in options[m].Opts;
        }
      }
    }

    /**
     * The options of `r` come grouped by the direct option whose subtree holds them, in the
     * order of the direct options: no option lies below an earlier direct option than one
     * before it.
     */
    ghost predicate Grouped(r: seq<Option>)
    {
      forall i, j, m, n {:trigger r[i] in options[m].Opts, r[j] in options[n].Opts} ::
        0 <= i < j < |r| && 0 <= m < |options| && 0 <= n < |options| &&
        r[i] in options[m].Opts && r[j] in options[n].Opts
        ==> m <= n
    }

    /** An option lies in the subtree of at most one direct option. */
    lemma OneOwner(x: Option, m: nat, n: nat)
      requires Valid() && m < |options| && n < |options| && x in options[m].Opts
      ensures x in options[n].Opts ==> m == n
    {
      if m < n {
        assert options[m].Opts !! options[n].Opts;
      } else if n < m {
        assert options[n].Opts !! options[m].Opts;
      }
    }

    /** A grouped list of options below the first `k` direct options, then options below the k-th: still grouped. */
    lemma GroupedAppend(k: nat, a: seq<Option>, g: seq<Option>, r: seq<Option>)
      requires Valid() && k < |options| && r == a + g
      requires forall i, j :: 0 <= i < |a| && 0 <= j < |options| && a[i] in options[j].Opts ==> j < k
      requires forall i :: 0 <= i < |g| ==> g[i] in options[k].Opts
      ensures Grouped(a) ==> Grouped(r)
    {
      if Grouped(a) {
        forall i, j, m, n | 0 <= i < j < |r| && 0 <= m < |options| && 0 <= n < |options| &&
          r[i] in options[m].Opts && r[j] in options[n].Opts
          ensures m <= n
        {
          if j < |a| {
            assert r[i] == a[i] && r[j] == a[j];
          } else {
            assert r[j] == g[j - |a|];
            OneOwner(r[j], k, n);
            if i < |a| {
              assert r[i] == a[i];
            } else {
              assert r[i] == g[i - |a|];
              OneOwner(r[i], k, m);
            }
          }
        }
      }
    }

    /** An option of the tree is a direct option or lies strictly below exactly one of them. */
    lemma TreeSplit()
      requires Valid()
      ensures forall x :: x in options ==> x in Opts
      ensures forall x :: x in Opts && x !in options ==>
        exists j :: 0 <= j < |options| && x in options[j].Opts && x != options[j]
    {
      forall x | x in Opts && x !in options
        ensures exists j :: 0 <= j < |options| && x in options[j].Opts && x != options[j]
      {
        OptsOfMember(options, x);
      }
    }

    /** The selected options strictly below the first `k` direct options. */
    function NestedSelected(k: nat): (r: seq<Option>)
      requires Valid() && k <= |options|
      reads Opts`selected
      ensures forall i :: 0 <= i < |r| ==> r[i] in Opts && r[i] !in options && r[i].selected
      ensures forall i, j :: 0 <= i < |r| && 0 <= j < |options| && r[i] in options[j].Opts ==> j < k
      ensures forall j, x :: 0 <= j < k && x in options[j].Opts && x != options[j] && x.selected ==> x in r
      ensures Distinct(r)
      decreases depth, 1, k
    {
      if k == 0 then []
      else
        var o := options[k - 1];
        var g := if o.HasSelected() then o.GetSelected() else [];
        var a := NestedSelected(k - 1);
        NestedCover(k, a, g, a + g);
        NestedStep(k, a, g, a + g);
        a + g
    }

    /**
     * Restricted to the subtree of the `j`-th direct option, the nested selection of the first
     * `k` is exactly what `getSelected` pushes for that option, in its order.
     */
    lemma {:induction false} NestedShare(k: nat, j: nat)
      requires Valid() && j < k <= |options|
      ensures Within(NestedSelected(k), options[j].Opts) == SelectedUnder(j)
      decreases k
    {
      if j == k - 1 {
        NestedLast(k);
      } else {
        NestedShare(k - 1, j);
        NestedBefore(k, j);
      }
    }

    /** Restricted to the subtree of the k-th direct option, the nested selection of the first `k` is its share. */
    lemma NestedLast(k: nat)
      requires Valid() && 0 < k <= |options|
      ensures Within(NestedSelected(k), options[k - 1].Opts) == SelectedUnder(k - 1)
    {
      var a, g := NestedSelected(k - 1), SelectedUnder(k - 1);
      NestedUnfold(k);
      ShareLast(k - 1, a, g);
    }

    /** The selection below the k-th direct option leaves the share of an earlier one as it was. */
    lemma NestedBefore(k: nat, j: nat)
      requires Valid() && j < k - 1 && k <= |options|
      ensures Within(NestedSelected(k), options[j].Opts) == Within(NestedSelected(k - 1), options[j].Opts)
    {
      var a, g := NestedSelected(k - 1), SelectedUnder(k - 1);
      NestedUnfold(k);
      ShareBefore(k - 1, a, g, j);
    }

    /** The nested selection of the first `k` direct options is grouped by direct option in array order. */
    lemma {:induction false} NestedGrouped(k: nat)
      requires Valid() && k <= |options|
      ensures Grouped(NestedSelected(k))
    {
      if k > 0 {
        NestedGrouped(k - 1);
        NestedGroupedStep(k);
      }
    }

    /** Appending the share of the k-th direct option keeps the nested selection grouped. */
    lemma NestedGroupedStep(k: nat)
      requires Valid() && 0 < k <= |options| && Grouped(NestedSelected(k - 1))
      ensures Grouped(NestedSelected(k))
    {
      NestedUnfold(k);
      GroupedAppend(k - 1, NestedSelected(k - 1), SelectedUnder(k - 1), NestedSelected(k));
    }

    /** The nested selection of the first `k` direct options ends with the share of the k-th. */
    lemma NestedUnfold(k: nat)
      requires Valid() && 0 < k <= |options|
      ensures NestedSelected(k) == NestedSelected(k - 1) + SelectedUnder(k - 1)
    {
    }

    /**
     * What `getSelected` pushes for the `j`-th direct option: that option's own `getSelected`
     * when something below it is selected, nothing otherwise.
     */
    function SelectedUnder(j: nat): (r: seq<Option>)
      requires Valid() && j < |options|
      reads Opts`selected
      ensures forall i :: 0 <= i < |r| ==> r[i] in options[j].Opts && r[i] != options[j] && r[i].selected
      ensures forall x :: x in options[j].Opts && x != options[j] && x.selected ==> x in r
      ensures Distinct(r)
      decreases depth, 0
    {
      var o := options[j];
      if o.HasSelected() then o.GetSelected() else []
    }

    /** Options below the k-th direct option add nothing to the share of an earlier one. */
    lemma ShareBefore(k: nat, a: seq<Option>, g: seq<Option>, j: nat)
      requires Valid() && j < k < |options|
      requires forall i :: 0 <= i < |g| ==> g[i] in options[k].Opts
      ensures Within(a + g, options[j].Opts) == Within(a, options[j].Opts)
    {
      WithinAppend(a, g, options[j].Opts);
      forall i | 0 <= i < |g| ensures g[i] !in options[j].Opts {
        OneOwner(g[i], k, j);
      }
      WithinNone(g, options[j].Opts);
    }

    /** Options below earlier direct options, then options below the k-th: the k-th's share is the latter. */
    lemma ShareLast(k: nat, a: seq<Option>, g: seq<Option>)
      requires Valid() && k < |options|
      requires forall i, j :: 0 <= i < |a| && 0 <= j < |options| && a[i] in options[j].Opts ==> j < k
      requires forall i :: 0 <= i < |g| ==> g[i] in options[k].Opts
      ensures Within(a + g, options[k].Opts) == g
    {
      WithinAppend(a, g, options[k].Opts);
      WithinNone(a, options[k].Opts);
      WithinAll(g, options[k].Opts);
    }

    /**
     * The selected options below the first k - 1 direct options, then those below the k-th: the
     * selected options below the first k.
     */
    lemma NestedCover(k: nat, a: seq<Option>, g: seq<Option>, r: seq<Option>)
      requires Valid() && 0 < k <= |options| && r == a + g
      requires forall i :: 0 <= i < |a| ==> a[i] in Opts && a[i] !in options && a[i].selected
      requires forall i, j :: 0 <= i < |a| && 0 <= j < |options| && a[i] in options[j].Opts ==> j < k - 1
      requires forall j, x :: 0 <= j < k - 1 && x in options[j].Opts && x != options[j] && x.selected ==> x in a
      requires forall i :: 0 <= i < |g| ==>
        g[i] in options[k - 1].Opts && g[i] != options[k - 1] && g[i].selected
      requires forall x :: x in options[k - 1].Opts && x != options[k - 1] && x.selected ==> x in g
      ensures forall i :: 0 <= i < |r| ==> r[i] in Opts && r[i] !in options && r[i].selected
      ensures forall i, j :: 0 <= i < |r| && 0 <= j < |options| && r[i] in options[j].Opts ==> j < k
      ensures forall j, x :: 0 <= j < k && x in options[j].Opts && x != options[j] && x.selected ==> x in r
    {
      forall i | 0 <= i < |r| ensures r[i] in Opts && r[i] !in options && r[i].selected {
        if i < |a| {
          assert r[i] == a[i];
        } else {
          assert r[i] == g[i - |a|];
          BelowNotDirect(k - 1, r[i]);
        }
      }
      forall i, j | 0 <= i < |r| && 0 <= j < |options| && r[i] in options[j].Opts ensures j < k {
        if i < |a| {
          assert r[i] == a[i];
        } else {
          assert r[i] == g[i - |a|];
          OneOwner(r[i], k - 1, j);
        }
      }
      forall j, x | 0 <= j < k && x in options[j].Opts && x != options[j] && x.selected ensures x in r {
        if j < k - 1 {
          assert x in a;
        } else {
          assert x in g;
        }
      }
    }

    /** Appending the selection below the k-th direct option keeps the nested selection distinct. */
    lemma NestedStep(k: nat, a: seq<Option>, g: seq<Option>, r: seq<Option>)
      requires Valid() && 0 < k <= |options| && r == a + g
      requires forall i, j :: 0 <= i < |a| && 0 <= j < |options| && a[i] in options[j].Opts ==> j < k - 1
      requires forall i :: 0 <= i < |g| ==> g[i] in options[k - 1].Opts
      requires Distinct(a) && Distinct(g)
      ensures Distinct(r)
    {
      NestedApart(k, a, g);
      AppendDistinct(a, g);
    }

    /** Options below different direct options are different. */
    lemma NestedApart(k: nat, a: seq<Option>, g: seq<Option>)
      requires Valid() && 0 < k <= |options|
      requires forall i, j :: 0 <= i < |a| && 0 <= j < |options| && a[i] in options[j].Opts ==> j < k - 1
      requires forall i :: 0 <= i < |g| ==> g[i] in options[k - 1].Opts
      ensures forall i, m :: 0 <= i < |a| && 0 <= m < |g| ==> a[i] != g[m]
    {
      forall i, m | 0 <= i < |a| && 0 <= m < |g| ensures a[i] != g[m] {
        assert g[m] in options[k - 1].Opts;
      }
    }

    /** The values of the selected options at every depth (the `value` getter). */
    function Value(): (r: seq<string>)
      requires Valid()
      reads Opts`selected
      ensures |r| == |GetSelected()| && forall i :: 0 <= i < |r| ==> r[i] == GetSelected()[i].Value()
      ensures forall v :: v in r <==> exists x :: x in Opts && x.selected && x.Value() == v
    {
      var s := GetSelected();
      var r := seq(|s|, i requires 0 <= i < |s| => s[i].Value());
      assert forall i :: 0 <= i < |s| ==> r[i] == s[i].Value();
      r
    }

    /**
     * Setting `[v]` when exactly one option of the tree carries the value `v` reads back as `[v]`:
     * the selection SetValue leaves lists that one option once.
     */
    lemma ValueRoundTrip(o: Option, v: string)
      requires Valid() && o in Opts && o.Value() == v
      requires forall x :: x in Opts && x.Value() == v ==> x == o
      requires forall x :: x in Opts ==> x.selected == (x.Value() in [v])
      ensures Value() == [v]
    {
      var s := GetSelected();
      assert o.selected;
      assert o in s;
      forall i | 0 <= i < |s| ensures s[i] == o {
        assert s[i] in Opts && s[i].selected;
      }
      DistinctConstant(s, o);
      var r := Value();
      assert |r| == 1 && r[0] == s[0].Value();
    }

    /**
     * The `value` setter: every option at every depth ends selected exactly when its value is
     * in `v`; an absent `v` reads as empty and clears the selection.
     */
    method SetValue(v: Maybe<seq<string>>)
      requires Valid()
      modifies Opts`selected
      ensures forall x :: x in Opts ==> x.selected == (x.Value() in Items(v))
      decreases depth, 2
    {
      var vs := if v.Some? then v.value else [];
      var i := 0;
      while i < |options|
        invariant 0 <= i <= |options|
        invariant forall j, x :: 0 <= j < i && x in options[j].Opts ==> x.selected == (x.Value() in vs)
      {
        options[i].SetSelected(vs);
        i := i + 1;
      }
      forall x | x in Opts ensures x.selected == (x.Value() in vs) {
        OptsOfMember(options, x);
      }
    }

    /** Marks `option` selected; unless `multiple`, everything in this list is deselected first. */
    method Select(option: Option, multiple: bool)
      requires Valid()
      modifies Opts`selected, option`selected
      ensures option.selected
      ensures forall x :: x in Opts && x != option ==> x.selected == (multiple && old(x.selected))
    {
      if !multiple {
        var dropped := ClearSelection();
      }
      option.selected := true;
    }

    /** Marks `option` unselected and changes nothing else. */
    method Deselect(option: Option)
      modifies option`selected
      ensures !option.selected
    {
      option.selected := false;
    }

    /**
     * Deselects every option at every depth. The result is always empty: what each option
     * reports is concatenated into a fresh array and dropped.
     */
    method ClearSelection() returns (deselected: seq<Option>)
      requires Valid()
      modifies Opts`selected
      ensures deselected == []
      ensures forall x :: x in Opts ==> !x.selected
      ensures !HasSelected() && Value() == []
      decreases depth, 2
    {
      deselected := [];
      var i := 0;
      while i < |options|
        invariant 0 <= i <= |options|
        invariant forall x :: x in Opts && x in OptsOf(options[..i]) ==> !x.selected
      {
        OptsOfPrefix(options, i);
        var reported := options[i].ClearSelection();
        var dropped := deselected + reported;
        i := i + 1;
      }
      assert options[..i] == options;
    }

    /** Some direct option is both shown and selected. */
    function HasShownSelected(): (r: bool)
      reads options`shown, options`selected
      ensures r <==> exists i :: 0 <= i < |options| && options[i].shown && options[i].selected
    {
      FirstTrue(Both(ShownMarks(options), SelectedMarks(options))) >= 0
    }

    /** The first shown direct option, or null. */
    method GetFirstShown() returns (r: Option?)
      ensures var k := FirstTrue(ShownMarks(options)); r == if k < 0 then null else options[k]
    {
      var i := 0;
      while i < |options|
        invariant 0 <= i <= |options|
        invariant forall j :: 0 <= j < i ==> !options[j].shown
      {
        if options[i].shown {
          return options[i];
        }
        i := i + 1;
      }
      return null;
    }

    /** The first direct option that is both shown and selected, or null. */
    method GetFirstShownSelected() returns (r: Option?)
      ensures var k := FirstTrue(Both(ShownMarks(options), SelectedMarks(options)));
              r == if k < 0 then null else options[k]
    {
      var i := 0;
      while i < |options|
        invariant 0 <= i <= |options|
        invariant forall j :: 0 <= j < i ==> !(options[j].shown && options[j].selected)
      {
        if options[i].shown && options[i].selected {
          return options[i];
        }
        i := i + 1;
      }
      return null;
    }

    /** Whatever `highlight` picks lies in this list's tree. */
    lemma PickInTree(shown: seq<bool>, selected: seq<bool>)
      requires Valid() && |shown| == |options| && |selected| == |options|
      ensures Pick(options, shown, selected) == null || Pick(options, shown, selected) in Opts
    {
      var k := FirstTrue(Both(shown, selected));
      var first := if k >= 0 then k else FirstTrue(shown);
      if first >= 0 {
        var o := options[first];
        assert Pick(options, shown, selected) == Descend(o);
        OptsOfMember(options, o);
        assert o.Valid() && o.Opts <= Opts;
        if o.HasChildren() {
          var c := o.children.options[0];
          assert o.children.Valid() && c.Valid();
          OptsOfMember(o.children.options, c);
          assert c in o.children.Opts;
        }
      }
    }

    /**
     * Points the highlight at the first shown and selected option, else at the first shown
     * option, descending one level into a non-empty child list.
     */
    method Highlight()
      requires Valid() && Linked()
      modifies this`highlightedOption, Opts`highlighted
      ensures Linked()
      ensures highlightedOption == Pick(options, ShownMarks(options), SelectedMarks(options))
      ensures forall x :: x in Opts ==>
        x.highlighted == Replay(Lit(old(highlightedOption), highlightedOption), x, old(x.highlighted))
    {
      var option := HighlightTarget();
      ghost var shown, selected := ShownMarks(options), SelectedMarks(options);
      HighlightOption(option);
      assert ShownMarks(options) == shown && SelectedMarks(options) == selected;
    }

    /** The option `highlight()` lands on: an option of the tree, or null when nothing is shown. */
    method HighlightTarget() returns (option: Option?)
      requires Valid()
      ensures option == Pick(options, ShownMarks(options), SelectedMarks(options))
      ensures option == null || option in Opts
    {
      if HasShownSelected() {
        option := GetFirstShownSelected();
      } else {
        option := GetFirstShown();
      }
      if option != null && option.HasChildren() {
        option := option.children.options[0];
      }
      PickInTree(ShownMarks(options), SelectedMarks(options));
    }

    /**
     * Clears the flag of the option the `highlightedOption` names, then flags `option` and points at it;
     * a null `option` leaves nothing highlighted by this list.
     */
    method HighlightOption(option: Option?)
      requires Valid() && Linked() && (option == null || option in Opts)
      modifies this`highlightedOption, Opts`highlighted
      ensures Linked() && highlightedOption == option
      ensures forall x :: x in Opts ==>
        x.highlighted == Replay(Lit(old(highlightedOption), option), x, old(x.highlighted))
    {
      ClearHighlightedOption();
      if option != null {
        option.highlighted := true;
        highlightedOption := option;
      }
    }

    /** Clears the flag of the option the `highlightedOption` names, and the `highlightedOption`. */
    method ClearHighlightedOption()
      requires Valid() && Linked()
      modifies this`highlightedOption, Opts`highlighted
      ensures Linked() && highlightedOption == null
      ensures forall x :: x in Opts ==> x.highlighted == (x != old(highlightedOption) && old(x.highlighted))
    {
      if highlightedOption != null {
        highlightedOption.highlighted := false;
        highlightedOption := null;
      }
    }

    /**
     * Moves the highlight one place down among the shown direct options, found by flag; at the
     * last one, or when none of them is flagged, nothing changes.
     */
    method HighlightNextOption()
      requires Valid() && Linked()
      modifies this`highlightedOption, Opts`highlighted
      ensures Linked()
      ensures var t := Step(old(Filtered()), FirstTrue(old(HighlightedMarks(Filtered()))), 1);
        t != null ==>
          highlightedOption == t &&
          forall x :: x in Opts ==> x.highlighted == Replay(Lit(old(highlightedOption), t), x, old(x.highlighted))
      ensures var t := Step(old(Filtered()), FirstTrue(old(HighlightedMarks(Filtered()))), 1);
        t == null ==>
          highlightedOption == old(highlightedOption) && forall x :: x in Opts ==> x.highlighted == old(x.highlighted)
    {
      var shownOptions := Filtered();
      var index := GetHighlightedIndexFromList(shownOptions);
      assert Step(old(Filtered()), FirstTrue(old(HighlightedMarks(Filtered()))), 1) ==
        if index > -1 && index < |shownOptions| - 1 then shownOptions[index + 1] else null;
      assert highlightedOption == old(highlightedOption) && forall x :: x in Opts ==> x.highlighted == old(x.highlighted);
      if index > -1 && index < |shownOptions| - 1 {
        OptsOfMember(options, shownOptions[index + 1]);
        HighlightOption(shownOptions[index + 1]);
      }
    }

    /**
     * Moves the highlight one place up among the shown direct options, found by flag; at the
     * first one, or when none of them is flagged, nothing changes.
     */
    method HighlightPreviousOption()
      requires Valid() && Linked()
      modifies this`highlightedOption, Opts`highlighted
      ensures Linked()
      ensures var t := Step(old(Filtered()), FirstTrue(old(HighlightedMarks(Filtered()))), -1);
        t != null ==>
          highlightedOption == t &&
          forall x :: x in Opts ==> x.highlighted == Replay(Lit(old(highlightedOption), t), x, old(x.highlighted))
      ensures var t := Step(old(Filtered()), FirstTrue(old(HighlightedMarks(Filtered()))), -1);
        t == null ==>
          highlightedOption == old(highlightedOption) && forall x :: x in Opts ==> x.highlighted == old(x.highlighted)
    {
      var shownOptions := Filtered();
      var index := GetHighlightedIndexFromList(shownOptions);
      assert Step(old(Filtered()), FirstTrue(old(HighlightedMarks(Filtered()))), -1) ==
        if index > 0 then shownOptions[index - 1] else null;
      assert highlightedOption == old(highlightedOption) && forall x :: x in Opts ==> x.highlighted == old(x.highlighted);
      if index > 0 {
        OptsOfMember(options, shownOptions[index - 1]);
        HighlightOption(shownOptions[index - 1]);
      }
    }

    /** The first position of `opts` whose option is flagged highlighted, or -1. */
    method GetHighlightedIndexFromList(opts: seq<Option>) returns (index: int)
      ensures index == FirstTrue(HighlightedMarks(opts))
    {
      var i := 0;
      while i < |opts|
        invariant 0 <= i <= |opts|
        invariant forall j :: 0 <= j < i ==> !opts[j].highlighted
      {
        if opts[i].highlighted {
          return i;
        }
        i := i + 1;
      }
      return -1;
    }

    /** The first position among the shown direct options whose option is flagged, or -1. */
    method GetHighlightedIndex() returns (index: int)
      ensures index == FirstTrue(HighlightedMarks(Filtered()))
    {
      index := GetHighlightedIndexFromList(Filtered());
    }

    /** The lists of this tree that a filter refreshes: this one and the non-empty nested ones. */
    ghost function Live(): set<OptionList>
    {
      set l | l in Lists && (l == this || |l.options| > 0)
    }

    /** Shows every option at every depth. */
    method ResetFilter()
      requires Valid()
      modifies Opts`shown
      ensures forall x :: x in Opts ==> x.shown
      decreases depth
    {
      var i := 0;
      while i < |options|
        invariant 0 <= i <= |options|
        invariant forall j, x :: 0 <= j < i && x in options[j].Opts ==> x.shown
      {
        var option := options[i];
        option.shown := true;
        if option.HasChildren() {
          option.children.ResetFilter();
        }
        assert forall x :: x in option.Opts ==> x.shown by {
          if option.children != null && !option.HasChildren() {
            assert option.Valid() && option.children.Valid() && option.children.options == [];
            assert option.children.Opts == {};
          }
        }
        i := i + 1;
      }
      forall x | x in Opts ensures x.shown {
        OptsOfMember(options, x);
      }
    }

    /** Every non-empty nested list lies strictly below one direct option with children. */
    lemma LiveSplit()
      requires Valid()
      ensures forall l :: l in Live() && l != this ==>
        exists i :: 0 <= i < |options| && options[i].HasChildren() && l in options[i].children.Live()
    {
      forall l | l in Live() && l != this
        ensures exists i :: 0 <= i < |options| && options[i].HasChildren() && l in options[i].children.Live()
      {
        ListsOfMember(options, l);
        var i :| 0 <= i < |options| && l in options[i].Lists;
        var o := options[i];
        assert o.Valid() && o.children != null && o.children.Valid();
        if l != o.children {
          ListsOfMember(o.children.options, l);
        }
        assert o.HasChildren();
      }
    }

    /** The lists a filter of the i-th option's child list touches are nested lists of this one. */
    lemma ChildLive(i: nat)
      requires Valid() && i < |options| && options[i].HasChildren()
      ensures options[i].children.Live() <= Live() - {this}
      ensures options[i].children.Opts <= Opts
      ensures LiveBelow(options[i]) <= options[i].Lists
    {
      ChildFrames(this, i);
    }

    /** The child-list writes of the first j = i + 1 options, in the old state. */
    twostate lemma WritesStep(new i: nat, new j: nat, new terms: seq<string>, new norm: string -> string)
      requires Valid() && i < |options| && j == i + 1
      ensures old(ChildWrites(this, j, terms, norm)) ==
        old(ChildWrites(this, i, terms, norm)) + old(OptionWrites(options[i], terms, norm))
    {
    }

    /** Whether one of the first j = i + 1 options reaches a match. */
    lemma AnyReachStep(i: nat, j: nat, terms: seq<string>, norm: string -> string)
      requires Valid() && i < |options| && j == i + 1
      ensures AnyReach(this, j, terms, norm) == (AnyReach(this, i, terms, norm) || Reach(options[i], terms, norm))
    {
    }

    /**
     * After the i-th option is filtered, the first j = i + 1 options are pending and their child
     * lists refreshed, and the writes of the options after them are as they were.
     */
    twostate lemma PassStep(new i: nat, new j: nat, new terms: seq<string>, new norm: string -> string)
      requires Valid() && Nested() && i < |options| && j == i + 1
      requires old(Passed(i, terms, norm))
      requires Pending(options[i], terms, norm)
      requires options[i].HasChildren() ==> Refreshed(options[i].children, terms, norm)
      requires forall k :: 0 <= k < |options| && k != i ==>
        (Pending(options[k], terms, norm) <==> old(Pending(options[k], terms, norm))) &&
        OptionWrites(options[k], terms, norm) == old(OptionWrites(options[k], terms, norm)) &&
        (options[k].HasChildren() ==>
          (Refreshed(options[k].children, terms, norm) <==> old(Refreshed(options[k].children, terms, norm))))
      ensures Passed(j, terms, norm)
      ensures forall k :: j <= k < |options| ==>
        OptionWrites(options[k], terms, norm) == old(OptionWrites(options[k], terms, norm))
    {
    }

    /** Flags that `w` took from `init` to the old state, and `ow` from there to the new one. */
    twostate lemma FlagsStep(new w: seq<Write<Option?>>, new ow: seq<Write<Option?>>, new init: map<Option, bool>)
      requires forall x :: x in Opts ==> x in init && old(x.highlighted) == Replay(w, x, init[x])
      requires forall x :: x in Opts ==> x.highlighted == Replay(ow, x, old(x.highlighted))
      ensures forall x :: x in Opts ==> x.highlighted == Replay(w + ow, x, init[x])
    {
      forall x | x in Opts ensures x.highlighted == Replay(w + ow, x, init[x]) {
        ReplayAppend(w, ow, x, init[x]);
      }
    }

    /**
     * Changes confined to the tree of the i-th option leave the filter state of every other
     * direct option's tree as it was, and keep the `highlightedOption` fields linked when that tree's are.
     */
    twostate lemma OthersKept(new i: nat, new terms: seq<string>, new norm: string -> string)
      requires Valid() && Nested() && i < |options|
      requires forall x :: x in Opts && x !in options[i].Opts ==>
        x.shown == old(x.shown) && x.selected == old(x.selected)
      requires forall l :: l in Lists && l !in options[i].Lists ==>
        l.hasShown == old(l.hasShown) && l.highlightedOption == old(l.highlightedOption)
      ensures forall j :: 0 <= j < |options| && j != i ==>
        (Pending(options[j], terms, norm) <==> old(Pending(options[j], terms, norm))) &&
        OptionWrites(options[j], terms, norm) == old(OptionWrites(options[j], terms, norm)) &&
        (options[j].HasChildren() ==>
          (Refreshed(options[j].children, terms, norm) <==> old(Refreshed(options[j].children, terms, norm))))
      ensures old(Linked()) && (options[i].children != null ==> options[i].children.Linked()) ==> Linked()
    {
      forall j | 0 <= j < |options| && j != i
        ensures (Pending(options[j], terms, norm) <==> old(Pending(options[j], terms, norm))) &&
          OptionWrites(options[j], terms, norm) == old(OptionWrites(options[j], terms, norm)) &&
          (options[j].HasChildren() ==>
            (Refreshed(options[j].children, terms, norm) <==> old(Refreshed(options[j].children, terms, norm))))
      {
        ChildFrames(this, j);
        if j < i {
          assert options[j].Opts !! options[i].Opts && options[j].Lists !! options[i].Lists;
        } else {
          assert options[i].Opts !! options[j].Opts && options[i].Lists !! options[j].Lists;
        }
        options[j].Kept(terms, norm);
      }
      ChildFrames(this, i);
    }

    /** The first `i` direct options are pending and the child lists below them refreshed. */
    ghost predicate Passed(i: nat, terms: seq<string>, norm: string -> string)
      requires Valid() && Nested() && i <= |options|
      reads Opts`shown, Lists`hasShown, Lists`highlightedOption, Opts`selected
    {
      forall j :: 0 <= j < i ==>
        Pending(options[j], terms, norm) &&
        (options[j].HasChildren() ==> Refreshed(options[j].children, terms, norm))
    }

    /** The child list of every direct option is itself valid. */
    ghost predicate Nested()
      requires Valid()
    {
      forall i :: 0 <= i < |options| && options[i].children != null ==> options[i].children.Valid()
    }

    /** A valid list is nested. */
    lemma NestedValid()
      requires Valid()
      ensures Nested()
    {
      forall i | 0 <= i < |options| && options[i].children != null
        ensures options[i].children.Valid()
      {
        ChildFrames(this, i);
      }
    }

    /**
     * Filters the options at every depth by the terms of `search` and returns whether any direct
     * option is left shown. A blank search shows everything. Afterwards the highlight is
     * recomputed and the shown cache set to the result.
     */
    method Filter(search: string, norm: string -> string) returns (anyShown: bool)
      requires Valid() && Linked()
      modifies Opts`shown, Opts`highlighted, Live()`highlightedOption, Live()`hasShown
      ensures Linked() && hasShown == anyShown
      ensures anyShown <==> exists i :: 0 <= i < |options| && options[i].shown
      ensures Blank(search) ==>
        AllShown(this) && anyShown == (|options| > 0) &&
        highlightedOption == Pick(options, ShownMarks(options), SelectedMarks(options)) &&
        forall x :: x in Opts ==>
          x.highlighted == Replay(Lit(old(highlightedOption), highlightedOption), x, old(x.highlighted))
      ensures Blank(search) ==> forall l :: l in Live() && l != this ==>
        l.hasShown == old(l.hasShown) && l.highlightedOption == old(l.highlightedOption)
      ensures !Blank(search) ==>
        FilteredBy(this, Terms(search), norm) && Refreshed(this, Terms(search), norm) &&
        anyShown == Result(this, Terms(search), norm)
      ensures !Blank(search) ==> forall x :: x in Opts ==>
        x.highlighted == Replay(old(FilterWrites(this, Terms(search), norm)), x, old(x.highlighted))
      decreases depth, 3
    {
      if Trim(search) == "" {
        anyShown := ShowAll();
      } else {
        anyShown := Narrow(search, norm);
      }
    }

    /** The blank-search half of filter: everything shown, then the highlight recomputed. */
    method ShowAll() returns (anyShown: bool)
      requires Valid() && Linked()
      modifies Opts`shown, Opts`highlighted, Live()`highlightedOption, Live()`hasShown
      ensures Linked() && hasShown == anyShown
      ensures anyShown <==> exists i :: 0 <= i < |options| && options[i].shown
      ensures AllShown(this) && anyShown == (|options| > 0)
      ensures highlightedOption == Pick(options, ShownMarks(options), SelectedMarks(options))
      ensures forall x :: x in Opts ==>
        x.highlighted == Replay(Lit(old(highlightedOption), highlightedOption), x, old(x.highlighted))
      ensures forall l :: l in Live() && l != this ==>
        l.hasShown == old(l.hasShown) && l.highlightedOption == old(l.highlightedOption)
      decreases depth, 2
    {
      ResetFilter();
      anyShown := |options| > 0;
      Reshow(anyShown);
    }

    /**
     * The tail of a blank filter: with every option shown, recompute the highlight and set the
     * shown cache to `anyShown`.
     */
    method Reshow(anyShown: bool)
      requires Valid() && Linked() && AllShown(this) && anyShown == (|options| > 0)
      modifies this`highlightedOption, this`hasShown, Opts`highlighted
      ensures Linked() && hasShown == anyShown
      ensures anyShown <==> exists i :: 0 <= i < |options| && options[i].shown
      ensures AllShown(this)
      ensures highlightedOption == Pick(options, ShownMarks(options), SelectedMarks(options))
      ensures forall x :: x in Opts ==>
        x.highlighted == Replay(Lit(old(highlightedOption), highlightedOption), x, old(x.highlighted))
    {
      Highlight();
      label Highlighted:
      hasShown := anyShown;
      MarksKept@Highlighted();
      ShownAny();
    }

    /** The half of filter for a search with terms: filter, then recompute the highlight. */
    method Narrow(search: string, norm: string -> string) returns (anyShown: bool)
      requires Valid() && Linked() && !Blank(search)
      modifies Opts`shown, Opts`highlighted, Live()`highlightedOption, Live()`hasShown
      ensures Linked() && hasShown == anyShown
      ensures anyShown <==> exists i :: 0 <= i < |options| && options[i].shown
      ensures FilteredBy(this, Terms(search), norm) && Refreshed(this, Terms(search), norm)
      ensures anyShown == Result(this, Terms(search), norm)
      ensures forall x :: x in Opts ==>
        x.highlighted == Replay(old(FilterWrites(this, Terms(search), norm)), x, old(x.highlighted))
      decreases depth, 2
    {
      ghost var terms := Terms(search);
      ghost var w, p, t := ChildWrites(this, |options|, terms, norm), highlightedOption, Target(this, terms, norm);
      FilterWritesSplit(this, terms, norm);
      NestedValid();
      anyShown := FilterBy(search, norm);
      label Filtered:
      assert highlightedOption == p;
      TargetKept(this, terms, norm);
      Rehighlight(anyShown, terms, norm);
      TargetKept@Filtered(this, terms, norm);
      assert highlightedOption == t;
      ghost var u := Lit(p, t);
      assert old(FilterWrites(this, terms, norm)) == w + u;
      forall x | x in Opts
        ensures x.highlighted == Replay(old(FilterWrites(this, terms, norm)), x, old(x.highlighted))
      {
        assert old@Filtered(x.highlighted) == Replay(w, x, old(x.highlighted));
        assert x.highlighted == Replay(u, x, old@Filtered(x.highlighted));
        ReplayAppend(w, u, x, old(x.highlighted));
      }
    }

    /**
     * The tail of a filter with terms: with the options already filtered and every child list
     * refreshed, recompute the highlight and set the shown cache to `anyShown`.
     */
    method Rehighlight(anyShown: bool, ghost terms: seq<string>, ghost norm: string -> string)
      requires Valid() && Nested() && Linked() && FilteredBy(this, terms, norm)
      requires ShownMarks(options) == ReachMarks(options, terms, norm)
      requires anyShown == Result(this, terms, norm)
      requires forall i :: 0 <= i < |options| && options[i].HasChildren() ==> Refreshed(options[i].children, terms, norm)
      modifies this`highlightedOption, this`hasShown, Opts`highlighted
      ensures Linked() && hasShown == anyShown
      ensures anyShown <==> exists i :: 0 <= i < |options| && options[i].shown
      ensures FilteredBy(this, terms, norm) && Refreshed(this, terms, norm)
      ensures highlightedOption == Target(this, terms, norm)
      ensures forall x :: x in Opts ==>
        x.highlighted == Replay(Lit(old(highlightedOption), highlightedOption), x, old(x.highlighted))
    {
      Highlight();
      label Highlighted:
      hasShown := anyShown;
      MarksKept@Highlighted();
      CachesKept(terms, norm);
      ChildrenKept(terms, norm);
      ResultShown(terms, norm);
      RefreshedJoin(terms, norm);
    }

    /**
     * A step that leaves every option's shown and selected flags and every nested list's
     * `highlightedOption` and cache alone keeps what filter promises about this list.
     */
    twostate lemma MarksKept()
      requires Valid()
      requires forall x :: x in Opts ==> x.shown == old(x.shown) && x.selected == old(x.selected)
      requires forall l :: l in Lists && l != this ==>
        l.hasShown == old(l.hasShown) && l.highlightedOption == old(l.highlightedOption)
      ensures ShownMarks(options) == old(ShownMarks(options))
      ensures SelectedMarks(options) == old(SelectedMarks(options))
      ensures AllShown(this) == old(AllShown(this))
      ensures highlightedOption == old(highlightedOption) ==> (Linked() <==> old(Linked()))
    {
      assert forall i :: 0 <= i < |options| ==> options[i] in Opts;
    }

    /** The same step also keeps the highlight target and the filtered state for any terms. */
    twostate lemma CachesKept(new terms: seq<string>, new norm: string -> string)
      requires Valid()
      requires forall x :: x in Opts ==> x.shown == old(x.shown) && x.selected == old(x.selected)
      requires forall l :: l in Lists && l != this ==>
        l.hasShown == old(l.hasShown) && l.highlightedOption == old(l.highlightedOption)
      ensures ShownMarks(options) == old(ShownMarks(options))
      ensures SelectedMarks(options) == old(SelectedMarks(options))
      ensures Target(this, terms, norm) == old(Target(this, terms, norm))
      ensures AllShown(this) == old(AllShown(this))
      ensures FilteredBy(this, terms, norm) == old(FilteredBy(this, terms, norm))
      ensures highlightedOption == old(highlightedOption) ==> (Linked() <==> old(Linked()))
    {
      assert forall i :: 0 <= i < |options| ==> options[i] in Opts;
    }

    /** With every option shown, some direct option is shown exactly when the list is non-empty. */
    lemma ShownAny()
      requires Valid() && AllShown(this)
      ensures (exists i :: 0 <= i < |options| && options[i].shown) <==> |options| > 0
    {
      if |options| > 0 {
        assert options[0] in Opts;
      }
    }

    /** Once filtered, some direct option is shown exactly when filter's result is true. */
    lemma ResultShown(terms: seq<string>, norm: string -> string)
      requires Valid() && FilteredBy(this, terms, norm)
      ensures Result(this, terms, norm) <==> exists i :: 0 <= i < |options| && options[i].shown
    {
      forall i | 0 <= i < |options|
        ensures options[i].shown == Reach(options[i], terms, norm)
      {
        assert Settled(options[i], terms, norm);
      }
    }

    /**
     * The non-blank branch of filter: the first pass over the direct options, then the second,
     * which reveals parents.
     */
    method FilterBy(search: string, norm: string -> string) returns (anyShown: bool)
      requires Valid() && Nested() && Linked() && !Blank(search)
      modifies Opts`shown, Opts`highlighted, (Live() - {this})`highlightedOption, (Live() - {this})`hasShown
      ensures Linked()
      ensures anyShown == Result(this, Terms(search), norm)
      ensures FilteredBy(this, Terms(search), norm)
      ensures ShownMarks(options) == ReachMarks(options, Terms(search), norm)
      ensures forall i :: 0 <= i < |options| && options[i].HasChildren() ==>
        Refreshed(options[i].children, Terms(search), norm)
      ensures forall x :: x in Opts ==>
        x.highlighted == Replay(old(ChildWrites(this, |options|, Terms(search), norm)), x, old(x.highlighted))
      decreases depth, 1
    {
      var terms := Terms(search);
      anyShown := FilterOptions(search, norm);
      label Passed:
      RevealParents(terms, norm);
      ChildrenKept@Passed(terms, norm);
      assert ShownMarks(options) == ReachMarks(options, terms, norm);
    }

    /** Steps that leave the nested lists' `highlightedOption` fields and caches and the selection alone keep them refreshed. */
    twostate lemma ChildrenKept(new terms: seq<string>, new norm: string -> string)
      requires Valid() && Nested()
      requires forall x :: x in Opts ==> x.selected == old(x.selected)
      requires forall l :: l in Lists && l != this ==>
        l.hasShown == old(l.hasShown) && l.highlightedOption == old(l.highlightedOption)
      requires forall i :: 0 <= i < |options| && options[i].HasChildren() ==>
        old(Refreshed(options[i].children, terms, norm))
      ensures forall i :: 0 <= i < |options| && options[i].HasChildren() ==>
        Refreshed(options[i].children, terms, norm)
    {
      forall i | 0 <= i < |options| && options[i].HasChildren()
        ensures Refreshed(options[i].children, terms, norm)
      {
        ChildFrames(this, i);
        RefreshedKept(options[i].children, terms, norm);
      }
    }

    /** A list is refreshed once its own `highlightedOption` and cache are and every nested list of its options is. */
    lemma RefreshedJoin(terms: seq<string>, norm: string -> string)
      requires Valid() && Nested()
      requires forall i :: 0 <= i < |options| && options[i].HasChildren() ==>
        Refreshed(options[i].children, terms, norm)
      requires hasShown == Result(this, terms, norm) && highlightedOption == Target(this, terms, norm)
      ensures Refreshed(this, terms, norm)
    {
      LiveSplit();
      forall l | l in Live()
        ensures l.Valid() && l.Opts <= Opts
        ensures l.hasShown == Result(l, terms, norm) && l.highlightedOption == Target(l, terms, norm)
      {
        if l != this {
          var i :| 0 <= i < |options| && options[i].HasChildren() && l in options[i].children.Live();
          ChildFrames(this, i);
        }
      }
    }

    /**
     * The first pass of a non-blank filter over the direct options: each is hidden, its
     * non-empty child list is filtered, and it is shown again when it matches.
     */
    method FilterOptions(search: string, norm: string -> string) returns (anyShown: bool)
      requires Valid() && Nested() && Linked() && !Blank(search)
      modifies Opts`shown, Opts`highlighted, (Live() - {this})`highlightedOption, (Live() - {this})`hasShown
      ensures Linked()
      ensures anyShown == Result(this, Terms(search), norm)
      ensures forall i :: 0 <= i < |options| ==> Pending(options[i], Terms(search), norm)
      ensures forall i :: 0 <= i < |options| && options[i].HasChildren() ==>
        Refreshed(options[i].children, Terms(search), norm)
      ensures forall x :: x in Opts ==>
        x.highlighted == Replay(old(ChildWrites(this, |options|, Terms(search), norm)), x, old(x.highlighted))
      decreases depth, 0
    {
      anyShown := false;
      var terms := Terms(search);
      var i := 0;
      ghost var w: seq<Write<Option?>> := [];
      ghost var init := map x | x in Opts :: x.highlighted;
      while i < |options|
        invariant 0 <= i <= |options|
        invariant Linked()
        invariant anyShown == AnyReach(this, i, terms, norm)
        invariant Passed(i, terms, norm)
        invariant forall j :: i <= j < |options| ==>
          OptionWrites(options[j], terms, norm) == old(OptionWrites(options[j], terms, norm))
        invariant w == old(ChildWrites(this, i, terms, norm))
        invariant forall x :: x in Opts ==> x in init && init[x] == old(x.highlighted)
        invariant forall x :: x in Opts ==> x.highlighted == Replay(w, x, init[x])
      {
        label Top:
        ghost var i0 := i;
        ghost var ow := OptionWrites(options[i], terms, norm);
        ChildFrames(this, i);
        if options[i].HasChildren() {
          ChildLive(i);
        }
        var reached := FilterAt(i, search, norm);
        assert Linked();
        FlagsStep@Top(w, ow, init);
        if reached {
          anyShown := true;
        }
        w := w + ow;
        i := i + 1;
        WritesStep(i0, i, terms, norm);
        AnyReachStep(i0, i, terms, norm);
        PassStep@Top(i0, i, terms, norm);
      }
    }

    /** The first pass of filter for the i-th option, seen from this list. */
    method FilterAt(i: nat, search: string, norm: string -> string) returns (reached: bool)
      requires Valid() && Nested() && Linked() && i < |options| && !Blank(search)
      modifies options[i].Opts`shown, options[i].Opts`highlighted
      modifies LiveBelow(options[i])`highlightedOption, LiveBelow(options[i])`hasShown
      ensures reached == Reach(options[i], Terms(search), norm)
      ensures Linked()
      ensures Pending(options[i], Terms(search), norm)
      ensures options[i].HasChildren() ==> Refreshed(options[i].children, Terms(search), norm)
      ensures forall j :: 0 <= j < |options| && j != i ==>
        (Pending(options[j], Terms(search), norm) <==> old(Pending(options[j], Terms(search), norm))) &&
        OptionWrites(options[j], Terms(search), norm) == old(OptionWrites(options[j], Terms(search), norm)) &&
        (options[j].HasChildren() ==>
          (Refreshed(options[j].children, Terms(search), norm) <==>
           old(Refreshed(options[j].children, Terms(search), norm))))
      ensures forall x :: x in Opts ==>
        x.highlighted == Replay(old(OptionWrites(options[i], Terms(search), norm)), x, old(x.highlighted))
      decreases depth, 0, 0
    {
      var terms := Terms(search);
      ChildFrames(this, i);
      var o := options[i];
      ghost var ow := OptionWrites(o, terms, norm);
      if o.HasChildren() {
        ChildLive(i);
        WritesInside(o.children, terms, norm);
      }
      reached := FilterOption(o, search, norm);
      OthersKept(i, terms, norm);
      forall x | x in Opts
        ensures x.highlighted == Replay(ow, x, old(x.highlighted))
      {
        if x !in o.Opts {
          assert x !in Targets(ow);
        }
      }
    }

    /**
     * The second pass of a non-blank filter: a matching option with children shows its whole
     * subtree; any other option with children is shown when one of its children is.
     */
    method RevealParents(terms: seq<string>, norm: string -> string)
      requires Valid()
      requires forall i :: 0 <= i < |options| ==> Pending(options[i], terms, norm)
      modifies Opts`shown
      ensures FilteredBy(this, terms, norm)
    {
      var i := 0;
      while i < |options|
        invariant 0 <= i <= |options|
        invariant forall j :: 0 <= j < i ==> Settled(options[j], terms, norm)
        invariant forall j :: i <= j < |options| ==> Pending(options[j], terms, norm)
      {
        ChildFrames(this, i);
        label Before:
        RevealParent(options[i], terms, norm);
        ShownElsewhere@Before(i, terms, norm);
        i := i + 1;
      }
    }

    /** Shown flags changed only in the i-th option's tree leave every other direct option's filter state. */
    twostate lemma ShownElsewhere(new i: nat, new terms: seq<string>, new norm: string -> string)
      requires Valid() && i < |options|
      requires forall x :: x in Opts && x !in options[i].Opts ==> x.shown == old(x.shown)
      ensures forall j :: 0 <= j < |options| && j != i ==>
        (Settled(options[j], terms, norm) <==> old(Settled(options[j], terms, norm))) &&
        (Pending(options[j], terms, norm) <==> old(Pending(options[j], terms, norm)))
    {
      forall j | 0 <= j < |options| && j != i
        ensures (Settled(options[j], terms, norm) <==> old(Settled(options[j], terms, norm))) &&
          (Pending(options[j], terms, norm) <==> old(Pending(options[j], terms, norm)))
      {
        ChildFrames(this, j);
        if j < i {
          assert options[j].Opts !! options[i].Opts;
        } else {
          assert options[i].Opts !! options[j].Opts;
        }
      }
    }
  }
}
