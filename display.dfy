/**
 * What the page derives from the quote list: the options of the category
 * drop-down, and the quotes a random pick is drawn from.
 */
module Display {
  import opened Seqs
  import opened Quotes

  /** One option of the category drop-down; the placeholder's value is the empty string. */
  datatype CategoryOption = NoCategories | CategoryOption(name: string) {
    function Value(): string {
      match this
      case NoCategories => ""
      case CategoryOption(name) => name
    }
  }

  /** `quotes.map(q => q.category)`. */
  function CategoriesOf(qs: seq<Quote>): seq<string> {
    seq(|qs|, k requires 0 <= k < |qs| => qs[k].category)
  }

  /** `[...new Set(categories)]`: each category once, in order of first occurrence. */
  function DistinctCategories(qs: seq<Quote>): (r: seq<string>)
    ensures |r| <= |qs|
  {
    AppendNew([], CategoriesOf(qs))
  }

  /** The drop-down: a single placeholder when there is no category, else one option per category. */
  function CategoryOptions(qs: seq<Quote>): (r: seq<CategoryOption>)
    ensures r != [] && (r == [NoCategories] || NoCategories !in r)
  {
    var cats := DistinctCategories(qs);
    if cats == [] then [NoCategories]
    else seq(|cats|, k requires 0 <= k < |cats| => CategoryOption(cats[k]))
  }

  /** Some quote of the list carries this category. */
  predicate HasCategory(qs: seq<Quote>, c: string) {
    exists k :: 0 <= k < |qs| && qs[k].category == c
  }

  /** Every category occurring in the list is listed exactly once, and nothing else is. */
  lemma DistinctCategoriesSpec(qs: seq<Quote>)
    ensures NoDuplicates(DistinctCategories(qs))
    ensures forall c :: c in DistinctCategories(qs) <==> HasCategory(qs, c)
  {
    var cats := CategoriesOf(qs);
    AppendNewKeepsNoDuplicates([], cats);
    forall c ensures c in DistinctCategories(qs) <==> HasCategory(qs, c) {
      AppendNewMembership([], cats, c);
      if c in cats {
        var k :| 0 <= k < |cats| && cats[k] == c;
        assert qs[k].category == c;
      }
      if HasCategory(qs, c) {
        var k :| 0 <= k < |qs| && qs[k].category == c;
        assert cats[k] == c;
      }
    }
  }

  /**
   * The drop-down is the placeholder alone exactly when the list is empty;
   * otherwise its option values are the categories of the list, each once.
   */
  lemma CategoryOptionsSpec(qs: seq<Quote>)
    ensures CategoryOptions(qs) == [NoCategories] <==> qs == []
    ensures qs != [] ==> forall c :: (exists o :: o in CategoryOptions(qs) && o.Value() == c) <==> HasCategory(qs, c)
    ensures qs != [] ==> NoDuplicates(CategoryOptions(qs))
  {
    DistinctCategoriesSpec(qs);
    var cats := DistinctCategories(qs);
    if qs != [] {
      assert HasCategory(qs, qs[0].category);
      assert cats != [];
      var opts := CategoryOptions(qs);
      forall c ensures (exists o :: o in opts && o.Value() == c) <==> HasCategory(qs, c) {
        if exists o :: o in opts && o.Value() == c {
          var o :| o in opts && o.Value() == c;
          var k :| 0 <= k < |opts| && opts[k] == o;
          assert cats[k] == c;
        }
        if HasCategory(qs, c) {
          var k :| 0 <= k < |cats| && cats[k] == c;
          assert opts[k] in opts && opts[k].Value() == c;
        }
      }
    }
  }

  /** `quotes.filter(q => q.category === c)`. */
  function WithCategory(qs: seq<Quote>, c: string): (r: seq<Quote>)
    ensures |r| <= |qs|
  {
    if qs == [] then []
    else (if qs[0].category == c then [qs[0]] else []) + WithCategory(qs[1..], c)
  }

  /** The quotes a random pick draws from: all of them when no category is selected (the empty value). */
  function Filtered(qs: seq<Quote>, selected: string): (r: seq<Quote>)
    ensures |r| <= |qs|
  {
    if selected == "" then qs else WithCategory(qs, selected)
  }

  /** A quote is kept by the category filter exactly when it is in the list with that category. */
  lemma {:induction false} WithCategoryMembership(qs: seq<Quote>, c: string, q: Quote)
    ensures q in WithCategory(qs, c) <==> q in qs && q.category == c
    decreases |qs|
  {
    if qs != [] {
      WithCategoryMembership(qs[1..], c, q);
      assert q in qs <==> q == qs[0] || q in qs[1..];
    }
  }

  /** The category filter keeps quotes independently and in order. */
  lemma {:induction false} WithCategoryConcat(a: seq<Quote>, b: seq<Quote>, c: string)
    ensures WithCategory(a + b, c) == WithCategory(a, c) + WithCategory(b, c)
    decreases |a|
  {
    if a == [] {
      assert a + b == b;
    } else {
      var head := if a[0].category == c then [a[0]] else [];
      assert (a + b)[0] == a[0];
      assert (a + b)[1..] == a[1..] + b;
      WithCategoryConcat(a[1..], b, c);
      calc {
        WithCategory(a + b, c);
        head + WithCategory(a[1..] + b, c);
        head + (WithCategory(a[1..], c) + WithCategory(b, c));
        (head + WithCategory(a[1..], c)) + WithCategory(b, c);
      }
    }
  }

  /** What a pick may show: a quote of the list, of the selected category when one is selected. */
  lemma FilteredMembership(qs: seq<Quote>, selected: string, q: Quote)
    ensures q in Filtered(qs, selected) <==> q in qs && (selected == "" || q.category == selected)
  {
    if selected != "" {
      WithCategoryMembership(qs, selected, q);
    }
  }

  /** Picking any option the drop-down offers finds a quote, unless the list is empty. */
  lemma OfferedOptionsFindQuotes(qs: seq<Quote>, o: CategoryOption)
    requires o in CategoryOptions(qs)
    ensures Filtered(qs, o.Value()) == [] <==> qs == []
  {
    CategoryOptionsSpec(qs);
    if qs != [] && o.Value() != "" {
      assert HasCategory(qs, o.Value());
      var k :| 0 <= k < |qs| && qs[k].category == o.Value();
      FilteredMembership(qs, o.Value(), qs[k]);
    }
  }

  /**
   * A quote with the empty category gets an option whose value is the empty
   * string, and that value reads as "no category selected": picking it draws
   * from every quote, not only from those with the empty category.
   */
  lemma EmptyCategoryShowsAll(qs: seq<Quote>, k: nat)
    requires k < |qs| && qs[k].category == ""
    ensures CategoryOption("") in CategoryOptions(qs)
    ensures Filtered(qs, "") == qs
  {
    CategoryOptionsSpec(qs);
    assert HasCategory(qs, "");
    var o :| o in CategoryOptions(qs) && o.Value() == "";
    assert o != NoCategories;
  }
}
