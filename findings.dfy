/**
 * The highlight that OptionList.highlight (src/option-list.ts:176-185) puts on a hidden option:
 * when the candidate it picks has a non-empty child list, it moves to the first option of that
 * list without looking at whether that option is shown. After a filter whose only hit is a
 * later child, the parent list flags a hidden first child while the child list flags the hit,
 * so one list level ends with two flagged options and the flagged one the parent points at is
 * not on screen.
 */
module Findings {
  import opened Input
  import opened Text
  import opened Marks
  import opened Select

  /** `needle` cannot occur in a string that lacks its first character. */
  lemma MissingHead(needle: string, hay: string)
    requires needle != [] && needle[0] !in hay
    ensures !Occurs(needle, hay)
  {
  }

  /** "Ban" is not blank: filter narrows rather than resets. */
  lemma BanNotBlank()
    ensures !Blank("Ban")
  {
    var s := "Ban";
    assert !IsTrimmed(s[0]) && TrimStart(s) == s;
    assert !IsTrimmed(s[|s| - 1]) && TrimEnd(s) == s;
  }

  /** The single term of the search "Ban". */
  lemma BanTerms()
    ensures Terms("Ban") == ["Ban"]
  {
    SpaceFreeTerm("Ban");
  }

  /** Which of the three labels the term "Ban" matches, with labels compared as they are. */
  lemma BanMatches(id: string -> string)
    requires forall s :: id(s) == s
    ensures !MatchesAll("Apple", ["Ban"], id)
    ensures !MatchesAll("Fruits", ["Ban"], id)
    ensures MatchesAll("Banana", ["Ban"], id)
  {
    MatchesAllOccurs("Apple", ["Ban"], id);
    MatchesAllOccurs("Fruits", ["Ban"], id);
    MatchesAllOccurs("Banana", ["Ban"], id);
    MissingHead("Ban", "Apple");
    MissingHead("Ban", "Fruits");
    assert OccursAt("Ban", "Banana", 0);
  }

  /** The records of the example: Fruits, with the children Apple and Banana. */
  function Fruits(): Record
  {
    Record("f", "Fruits", false, Present([Record("a", "Apple", false, Absent), Record("b", "Banana", false, Absent)]))
  }

  /** The shape of a list built from [Fruits]: one parent whose child list holds two leaves. */
  lemma FruitsShape(root: OptionList)
    requires root.Valid() && root.Built([Fruits()])
    ensures |root.options| == 1 && root.options[0].HasChildren()
    ensures var f := root.options[0];
      f.Label() == "Fruits" && f.children.Valid() && f.children in root.Lists && |f.children.options| == 2 &&
      f.children.options[0].Label() == "Apple" && f.children.options[0].children == null &&
      f.children.options[1].Label() == "Banana" && f.children.options[1].children == null
  {
    var f := root.options[0];
    assert f.BuiltFrom(Fruits());
    var c := f.children;
    ChildFrames(root, 0);
    assert c.Built(Items(ChildInput(Fruits())));
    assert c.options[0].BuiltFrom(Items(ChildInput(Fruits()))[0]);
    assert c.options[1].BuiltFrom(Items(ChildInput(Fruits()))[1]);
  }

  /**
   * With nothing selected, the filter by "Ban" reaches Fruits only through Banana, and the
   * highlight it computes is Banana in the child list but Apple, the first child of Fruits, at
   * the top.
   */
  lemma FruitsTargets(root: OptionList, id: string -> string)
    requires root.Valid() && root.Built([Fruits()])
    requires forall s :: id(s) == s
    requires forall x :: x in root.Opts ==> !x.selected
    ensures |root.options| == 1 && root.options[0].HasChildren() && |root.options[0].children.options| == 2
    ensures root.options[0].children.Valid()
    ensures !Hit(root.options[0], ["Ban"], id)
    ensures !Reach(root.options[0].children.options[0], ["Ban"], id)
    ensures Target(root.options[0].children, ["Ban"], id) == root.options[0].children.options[1]
    ensures Target(root, ["Ban"], id) == root.options[0].children.options[0]
  {
    FruitsShape(root);
    BanMatches(id);
    var f := root.options[0];
    var c := f.children;
    var a, b := c.options[0], c.options[1];
    ChildFrames(root, 0);
    ChildFrames(c, 0);
    ChildFrames(c, 1);
    assert !Reach(a, ["Ban"], id);
    assert Reach(b, ["Ban"], id);
    assert Reach(f, ["Ban"], id) by {
      assert AnyReach(c, 2, ["Ban"], id);
    }
    var rc, sc := ReachMarks(c.options, ["Ban"], id), SelectedMarks(c.options);
    assert rc == [false, true] && sc == [false, false];
    PickSecond(c.options);
    var rr, sr := ReachMarks(root.options, ["Ban"], id), SelectedMarks(root.options);
    assert rr == [true] && sr == [false];
    PickOnly(root.options);
  }

  /** Of two unselected options, only the second shown: `highlight` picks the second. */
  lemma PickSecond(opts: seq<Option>)
    requires |opts| == 2
    ensures Pick(opts, [false, true], [false, false]) == Descend(opts[1])
  {
    assert FirstTrue(Both([false, true], [false, false])) == -1;
    assert FirstTrue([false, true]) == 1 by {
      assert [false, true][1..] == [true];
    }
  }

  /** One shown, unselected option: `highlight` picks it. */
  lemma PickOnly(opts: seq<Option>)
    requires |opts| == 1
    ensures Pick(opts, [true], [false]) == Descend(opts[0])
  {
    assert FirstTrue(Both([true], [false])) == -1;
  }

  /**
   * The flag writes of the filter by "Ban" on the fresh [Fruits] list: the child list sets
   * Banana, then the top list clears and sets again Apple, which it already pointed at.
   */
  lemma FruitsWrites(root: OptionList, id: string -> string)
    requires root.Valid() && root.Built([Fruits()])
    requires forall s :: id(s) == s
    requires forall x :: x in root.Opts ==> !x.selected
    requires |root.options| == 1 && root.options[0].children != null
    requires |root.options[0].children.options| == 2
    requires root.highlightedOption == root.options[0].children.options[0]
    requires root.options[0].children.highlightedOption == null
    ensures var a: Option?, b: Option? := root.options[0].children.options[0], root.options[0].children.options[1];
      FilterWrites(root, ["Ban"], id) == [Write(b, true), Write(a, false), Write(a, true)]
  {
    FruitsTargets(root, id);
    ChildFruitsWrites(root, id);
    ChildFrames(root, 0);
    var c := root.options[0].children;
    var b: Option? := c.options[1];
    assert ChildWrites(root, 1, ["Ban"], id) == [Write(b, true)];
  }

  /** The filter of the child list of Fruits writes one flag: Banana's, set. */
  lemma ChildFruitsWrites(root: OptionList, id: string -> string)
    requires root.Valid() && root.Built([Fruits()])
    requires forall s :: id(s) == s
    requires forall x :: x in root.Opts ==> !x.selected
    requires |root.options| == 1 && root.options[0].children != null
    requires |root.options[0].children.options| == 2
    requires root.options[0].children.highlightedOption == null
    ensures root.options[0].children.Valid()
    ensures var b: Option? := root.options[0].children.options[1];
      FilterWrites(root.options[0].children, ["Ban"], id) == [Write(b, true)]
  {
    FruitsTargets(root, id);
    FruitsShape(root);
    var c := root.options[0].children;
    ChildFrames(root, 0);
    assert ChildWrites(c, 2, ["Ban"], id) == [] by {
      assert ChildWrites(c, 1, ["Ban"], id) == [];
    }
  }

  /** A new top-level list built from [Fruits]: nothing selected, `highlightedOption` Apple. */
  method NewFruits() returns (root: OptionList)
    ensures root.Valid() && root.Linked() && root.Built([Fruits()]) && fresh(root.Opts) && fresh(root.Lists)
    ensures forall x :: x in root.Opts ==> !x.selected
    ensures |root.options| == 1 && root.options[0].children != null && |root.options[0].children.options| == 2
    ensures root.highlightedOption == root.options[0].children.options[0]
    ensures root.options[0].children.highlightedOption == null
    ensures root.options[0].children.options[0] in root.Opts && root.options[0].children.options[1] in root.Opts
  {
    root := new OptionList(Some([Fruits()]), false);
    FruitsShape(root);
    ChildFrames(root, 0);
    ChildFrames(root.options[0].children, 0);
    ChildFrames(root.options[0].children, 1);
  }

  /** filter("Ban") on the list NewFruits returns, with labels compared as they are. */
  method FilterFruits(root: OptionList, id: string -> string, ghost w: seq<Write<Option?>>)
    requires root.Valid() && root.Linked()
    requires forall s :: id(s) == s
    requires w == FilterWrites(root, ["Ban"], id)
    modifies root.Opts`shown, root.Opts`highlighted, root.Live()`highlightedOption, root.Live()`hasShown
    ensures FilteredBy(root, ["Ban"], id) && Refreshed(root, ["Ban"], id)
    ensures forall x :: x in root.Opts ==> x.highlighted == Replay(w, x, old(x.highlighted))
  {
    BanNotBlank();
    BanTerms();
    var _ := root.Filter("Ban", id);
  }

  /**
   * Filtering a fresh [Fruits] list by "Ban", as written: Apple is hidden, yet the top list
   * still points at it and it stays flagged, while Banana, the only match, is flagged too.
   */
  method HiddenHighlight() returns (root: OptionList, apple: Option, banana: Option)
    ensures !apple.shown && banana.shown && apple != banana
    ensures root.highlightedOption == apple && apple.highlighted && banana.highlighted
    ensures root.Valid() && CorrectedPick(root.options, SelectedMarks(root.options)) == banana
  {
    root := NewFruits();
    apple, banana := root.options[0].children.options[0], root.options[0].children.options[1];
    var id: string -> string := s => s;
    FruitsWrites(root, id);
    ghost var a: Option?, b: Option? := apple, banana;
    ghost var w := [Write(b, true), Write(a, false), Write(a, true)];
    FilterFruits(root, id, w);
    FruitsFiltered(root, id);
    ReplayFruits(apple, banana, w);
    CorrectedFruits(root, id);
  }

  /** After the filter by "Ban": Apple hidden, Banana shown, the top list's `highlightedOption` Apple. */
  lemma FruitsFiltered(root: OptionList, id: string -> string)
    requires root.Valid() && root.Built([Fruits()])
    requires forall s :: id(s) == s
    requires forall x :: x in root.Opts ==> !x.selected
    requires FilteredBy(root, ["Ban"], id) && Refreshed(root, ["Ban"], id)
    ensures |root.options| == 1 && root.options[0].children != null && |root.options[0].children.options| == 2
    ensures var a, b := root.options[0].children.options[0], root.options[0].children.options[1];
      root.options[0].shown && !a.shown && b.shown && a != b && root.highlightedOption == a
  {
    FruitsTargets(root, id);
    FruitsShape(root);
    var f := root.options[0];
    var c := f.children;
    var a, b := c.options[0], c.options[1];
    ChildFrames(root, 0);
    ChildFrames(c, 0);
    ChildFrames(c, 1);
    assert Settled(f, ["Ban"], id);
    assert FilteredBy(c, ["Ban"], id);
    assert Settled(a, ["Ban"], id) && Settled(b, ["Ban"], id);
    assert root in root.Live();
  }

  /** Both Apple and Banana end flagged by the writes, whatever their flags were before. */
  lemma ReplayFruits(a: Option?, b: Option?, w: seq<Write<Option?>>)
    requires a != b && w == [Write(b, true), Write(a, false), Write(a, true)]
    ensures forall init :: Replay(w, a, init) && Replay(w, b, init)
  {
    forall init: bool ensures Replay(w, a, init) && Replay(w, b, init) {
      var u := [Write(b, true), Write(a, false)];
      assert w[..|w| - 1] == u && u[..|u| - 1] == [Write(b, true)];
      assert Replay(w, b, init) == Replay(u, b, init) == Replay([Write(b, true)], b, init);
    }
  }

  /**
   * The intended descent: from a candidate with a non-empty child list, to the first shown
   * option of that list; the candidate itself when none is shown or it has no child list.
   */
  function DescendShown(o: Option?): (r: Option?)
    requires o == null || o.Valid()
    reads if o != null && o.children != null then o.children.options else []
    ensures r == null <==> o == null
    ensures o != null && o.shown ==> r.shown
    ensures o != null && r != o ==>
      o.HasChildren() &&
      exists k :: 0 <= k < |o.children.options| && r == o.children.options[k] && r.shown &&
        forall j :: 0 <= j < k ==> !o.children.options[j].shown
    ensures o != null && o.HasChildren() && (exists i :: 0 <= i < |o.children.options| && o.children.options[i].shown) ==>
      r != o
  {
    if o == null || o.children == null then o
    else
      var k := FirstTrue(ShownMarks(o.children.options));
      assert o.children.Valid();
      if k >= 0 then (assert o.children.options[k] in o.children.Opts; o.children.options[k]) else o
  }

  /** The options of the child lists of `opts`. */
  function ChildOptions(opts: seq<Option>): (r: set<Option>)
    ensures forall i, x :: 0 <= i < |opts| && opts[i].children != null && x in opts[i].children.options ==> x in r
  {
    set o, x | o in opts && o.children != null && x in o.children.options :: x
  }

  /** `highlight` with the intended descent: it never lands on a hidden option. */
  function CorrectedPick(opts: seq<Option>, selected: seq<bool>): (r: Option?)
    requires |selected| == |opts| && forall i :: 0 <= i < |opts| ==> opts[i].Valid()
    reads opts, ChildOptions(opts)
    ensures r == null || r.shown
    ensures r == null <==> forall i :: 0 <= i < |opts| ==> !opts[i].shown
  {
    DescendShown(Candidate(opts, ShownMarks(opts), selected))
  }

  /**
   * On the filtered [Fruits] list, `highlight` as written picks the hidden Apple, while the
   * intended descent picks Banana, the option the child list already flags.
   */
  lemma CorrectedFruits(root: OptionList, id: string -> string)
    requires root.Valid() && root.Built([Fruits()])
    requires forall s :: id(s) == s
    requires forall x :: x in root.Opts ==> !x.selected
    requires FilteredBy(root, ["Ban"], id) && Refreshed(root, ["Ban"], id)
    ensures |root.options| == 1 && root.options[0].children != null && |root.options[0].children.options| == 2
    ensures var a, b := root.options[0].children.options[0], root.options[0].children.options[1];
      Pick(root.options, ShownMarks(root.options), SelectedMarks(root.options)) == a &&
      CorrectedPick(root.options, SelectedMarks(root.options)) == b
  {
    FruitsFiltered(root, id);
    FruitsShape(root);
    ChildFrames(root, 0);
    PicksOnFruits(root.options, root.options[0].children.options);
  }

  /**
   * One shown, unselected parent whose child list holds a hidden option and then a shown one:
   * `Pick` lands on the hidden child, CorrectedPick on the shown one.
   */
  lemma PicksOnFruits(opts: seq<Option>, kids: seq<Option>)
    requires |opts| == 1 && opts[0].Valid() && opts[0].shown && !opts[0].selected
    requires opts[0].children != null && opts[0].children.options == kids
    requires |kids| == 2 && !kids[0].shown && kids[1].shown
    ensures Pick(opts, ShownMarks(opts), SelectedMarks(opts)) == kids[0]
    ensures CorrectedPick(opts, SelectedMarks(opts)) == kids[1]
  {
    var sr, sel := ShownMarks(opts), SelectedMarks(opts);
    assert sr == [true] && sel == [false];
    PickOnly(opts);
    assert FirstTrue(Both(sr, sel)) == -1;
    assert Candidate(opts, sr, sel) == opts[0];
    var km := ShownMarks(kids);
    assert km == [false, true];
    assert FirstTrue(km) == 1 by {
      assert km[1..] == [true];
    }
  }
}
