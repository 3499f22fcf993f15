/**
 * `extract_from_categories` of backend/main.py:33-56: split the classifier's
 * categories into a bias family (named left, right or neutral) and an extent
 * family (every other name), sort each ascending by confidence with Python's
 * stable sort, and return the first element of each.
 */
module Categories {
  import opened Wrappers
  import opened Subsequences

  /** A classifier category; the confidence is a float in the source, only its order matters. */
  datatype Category = Category(name: string, confidence: real)

  datatype ExtractError = NoBiasCategory | NoExtentCategory

  predicate IsBiasName(name: string)
  {
    name == "left" || name == "right" || name == "neutral"
  }

  /** The categories the loop appends to `biases`, in input order. */
  function BiasFamily(cats: seq<Category>): (r: seq<Category>)
    ensures |r| <= |cats|
    ensures forall k :: 0 <= k < |r| ==> IsBiasName(r[k].name)
  {
    if cats == [] then []
    else
      var rest := BiasFamily(cats[..|cats| - 1]);
      if IsBiasName(cats[|cats| - 1].name) then rest + [cats[|cats| - 1]] else rest
  }

  /** The categories the loop appends to `extents`, in input order. */
  function ExtentFamily(cats: seq<Category>): (r: seq<Category>)
    ensures |r| <= |cats|
    ensures forall k :: 0 <= k < |r| ==> !IsBiasName(r[k].name)
  {
    if cats == [] then []
    else
      var rest := ExtentFamily(cats[..|cats| - 1]);
      if !IsBiasName(cats[|cats| - 1].name) then rest + [cats[|cats| - 1]] else rest
  }

  /** Every category lands in exactly one family, the right one, and nothing else does. */
  lemma {:induction false} FamiliesPartition(cats: seq<Category>)
    ensures multiset(BiasFamily(cats)) + multiset(ExtentFamily(cats)) == multiset(cats)
    ensures forall c :: c in BiasFamily(cats) <==> c in cats && IsBiasName(c.name)
    ensures forall c :: c in ExtentFamily(cats) <==> c in cats && !IsBiasName(c.name)
  {
    if cats != [] {
      var init := cats[..|cats| - 1];
      FamiliesPartition(init);
      assert cats == init + [cats[|cats| - 1]];
    }
  }

  /** Each family keeps the input order: it is the input with the other family's members left out. */
  lemma {:induction false} FamiliesInOrder(cats: seq<Category>)
    ensures IsSubsequence(BiasFamily(cats), cats) && IsSubsequence(ExtentFamily(cats), cats)
  {
    if cats != [] {
      var init, c := cats[..|cats| - 1], cats[|cats| - 1];
      FamiliesInOrder(init);
      assert cats == init + [c];
      SubsequenceStep(BiasFamily(init), init, c, BiasFamily(cats));
      SubsequenceStep(ExtentFamily(init), init, c, ExtentFamily(cats));
    }
  }

  ghost predicate SortedByConfidence(s: seq<Category>)
  {
    forall i, j :: 0 <= i < j < |s| ==> s[i].confidence <= s[j].confidence
  }

  /** Inserts `x` before the first element that is not below it, so `x` stays ahead of its equals. */
  function Insert(x: Category, s: seq<Category>): (r: seq<Category>)
    ensures multiset(r) == multiset(s) + multiset{x}
    ensures |r| == |s| + 1
  {
    if s == [] || x.confidence <= s[0].confidence then [x] + s
    else
      assert s == [s[0]] + s[1..];
      [s[0]] + Insert(x, s[1..])
  }

  /**
   * `list.sort(key=lambda c: c.confidence)`: a stable ascending sort, here by insertion
   * from the back, so that an earlier element ends up ahead of every later equal one.
   */
  function SortByConfidence(s: seq<Category>): (r: seq<Category>)
    ensures |r| == |s| && multiset(r) == multiset(s)
  {
    if s == [] then []
    else
      assert s == [s[0]] + s[1..];
      Insert(s[0], SortByConfidence(s[1..]))
  }

  /** Inserting an element no lower than `b` into elements no lower than `b` keeps them all above `b`. */
  lemma {:induction false} InsertBound(x: Category, s: seq<Category>, b: real)
    requires b <= x.confidence
    requires forall k :: 0 <= k < |s| ==> b <= s[k].confidence
    ensures forall k :: 0 <= k < |Insert(x, s)| ==> b <= Insert(x, s)[k].confidence
  {
    if s != [] && x.confidence > s[0].confidence {
      InsertBound(x, s[1..], b);
    }
  }

  lemma {:induction false} InsertSorted(x: Category, s: seq<Category>)
    requires SortedByConfidence(s)
    ensures SortedByConfidence(Insert(x, s))
    ensures s != [] ==> Insert(x, s)[0] == if x.confidence <= s[0].confidence then x else s[0]
  {
    if s != [] && x.confidence > s[0].confidence {
      var tail := s[1..];
      assert SortedByConfidence(tail) by {
        forall i, j | 0 <= i < j < |tail| ensures tail[i].confidence <= tail[j].confidence {
          assert tail[i] == s[i + 1] && tail[j] == s[j + 1];
        }
      }
      assert forall k :: 0 <= k < |tail| ==> s[0].confidence <= tail[k].confidence by {
        forall k | 0 <= k < |tail| ensures s[0].confidence <= tail[k].confidence {
          assert tail[k] == s[k + 1];
        }
      }
      InsertSorted(x, tail);
      InsertBound(x, tail, s[0].confidence);
      var r := Insert(x, tail);
      var out := [s[0]] + r;
      assert Insert(x, s) == out;
      forall i, j | 0 <= i < j < |out| ensures out[i].confidence <= out[j].confidence {
        assert out[j] == r[j - 1];
        if i > 0 {
          assert out[i] == r[i - 1];
        }
      }
    }
  }

  lemma {:induction false} SortSorted(s: seq<Category>)
    ensures SortedByConfidence(SortByConfidence(s))
  {
    if s != [] {
      SortSorted(s[1..]);
      InsertSorted(s[0], SortByConfidence(s[1..]));
    }
  }

  /** The sort returns its input, reordered, in ascending order. */
  lemma SortSpec(s: seq<Category>)
    ensures SortedByConfidence(SortByConfidence(s))
    ensures multiset(SortByConfidence(s)) == multiset(s)
  {
    SortSorted(s);
  }

  /**
   * The index of the least confident element, the earliest one among equals.
   */
  function LeastIndex(s: seq<Category>): (i: nat)
    requires s != []
    ensures i < |s|
    ensures forall j :: 0 <= j < |s| ==> s[i].confidence <= s[j].confidence
    ensures forall j :: 0 <= j < i ==> s[j].confidence > s[i].confidence
  {
    if |s| == 1 then 0
    else
      var k := LeastIndex(s[1..]) + 1;
      if s[0].confidence <= s[k].confidence then 0 else k
  }

  /** After the stable ascending sort, element 0 is the earliest least confident element. */
  lemma {:induction false} SortHead(s: seq<Category>)
    requires s != []
    ensures SortByConfidence(s)[0] == s[LeastIndex(s)]
  {
    if |s| > 1 {
      SortHead(s[1..]);
      SortSpec(s[1..]);
      InsertSorted(s[0], SortByConfidence(s[1..]));
    }
  }

  /** `return biases[0], extents[0]` after the two sorts; indexing an empty family fails. */
  function Extract(cats: seq<Category>): (r: Result<(Category, Category), ExtractError>)
    ensures r.Failure? <==> BiasFamily(cats) == [] || ExtentFamily(cats) == []
    ensures r == Failure(NoBiasCategory) <==> BiasFamily(cats) == []
    ensures r.Success? ==> r.value.0 in BiasFamily(cats) && r.value.1 in ExtentFamily(cats)
  {
    var bs, es := BiasFamily(cats), ExtentFamily(cats);
    var biases, extents := SortByConfidence(bs), SortByConfidence(es);
    if |biases| == 0 then Failure(NoBiasCategory)
    else if |extents| == 0 then Failure(NoExtentCategory)
    else
      assert biases[0] in multiset(biases) && extents[0] in multiset(extents);
      Success((biases[0], extents[0]))
  }

  /** The earliest least confident bias category is a bias-named input no more confident than any other. */
  lemma LeastOfBiasFamily(cats: seq<Category>)
    requires BiasFamily(cats) != []
    ensures var bs := BiasFamily(cats); var b := bs[LeastIndex(bs)];
      && b in cats && IsBiasName(b.name)
      && forall c :: c in cats && IsBiasName(c.name) ==> b.confidence <= c.confidence
  {
    var bs := BiasFamily(cats);
    FamiliesPartition(cats);
    assert bs[LeastIndex(bs)] in bs;
    forall c | c in cats && IsBiasName(c.name) ensures bs[LeastIndex(bs)].confidence <= c.confidence {
      var j :| 0 <= j < |bs| && bs[j] == c;
    }
  }

  /** The earliest least confident extent category is an extent-named input no more confident than any other. */
  lemma LeastOfExtentFamily(cats: seq<Category>)
    requires ExtentFamily(cats) != []
    ensures var es := ExtentFamily(cats); var e := es[LeastIndex(es)];
      && e in cats && !IsBiasName(e.name)
      && forall c :: c in cats && !IsBiasName(c.name) ==> e.confidence <= c.confidence
  {
    var es := ExtentFamily(cats);
    FamiliesPartition(cats);
    assert es[LeastIndex(es)] in es;
    forall c | c in cats && !IsBiasName(c.name) ensures es[LeastIndex(es)].confidence <= c.confidence {
      var j :| 0 <= j < |es| && es[j] == c;
    }
  }

  /** What Extract returns: the earliest least confident member of each family, or the family that is empty. */
  lemma ExtractPicksLeastConfident(cats: seq<Category>)
    ensures Extract(cats).Failure? <==> BiasFamily(cats) == [] || ExtentFamily(cats) == []
    ensures Extract(cats) == Failure(NoBiasCategory) <==> forall c :: c in cats ==> !IsBiasName(c.name)
    ensures Extract(cats).Success? ==>
      var (b, e) := Extract(cats).value;
      && b in cats && IsBiasName(b.name)
      && e in cats && !IsBiasName(e.name)
      && b == BiasFamily(cats)[LeastIndex(BiasFamily(cats))]
      && e == ExtentFamily(cats)[LeastIndex(ExtentFamily(cats))]
      && (forall c :: c in cats && IsBiasName(c.name) ==> b.confidence <= c.confidence)
      && (forall c :: c in cats && !IsBiasName(c.name) ==> e.confidence <= c.confidence)
  {
    var bs, es := BiasFamily(cats), ExtentFamily(cats);
    FamiliesPartition(cats);
    SortSpec(bs);
    SortSpec(es);
    if bs == [] {
      assert forall c :: c in cats ==> !IsBiasName(c.name);
    } else {
      assert bs[0] in cats;
      if es != [] {
        SortHead(bs);
        SortHead(es);
        LeastOfBiasFamily(cats);
        LeastOfExtentFamily(cats);
      }
    }
  }

  /** The loop of backend/main.py:40-56: append each category to its family, sort both, take element 0 of each. */
  method ExtractFromCategories(categories: seq<Category>) returns (r: Result<(Category, Category), ExtractError>)
    ensures r == Extract(categories)
    ensures r.Success? ==>
      && r.value.0 in categories && IsBiasName(r.value.0.name)
      && r.value.1 in categories && !IsBiasName(r.value.1.name)
      && (forall c :: c in categories && IsBiasName(c.name) ==> r.value.0.confidence <= c.confidence)
      && (forall c :: c in categories && !IsBiasName(c.name) ==> r.value.1.confidence <= c.confidence)
  {
    var biases: seq<Category> := [];
    var extents: seq<Category> := [];
    for i := 0 to |categories|
      invariant biases == BiasFamily(categories[..i])
      invariant extents == ExtentFamily(categories[..i])
    {
      assert categories[..i + 1][..i] == categories[..i];
      var category := categories[i];
      if category.name == "left" || category.name == "right" || category.name == "neutral" {
        biases := biases + [category];
      } else {
        extents := extents + [category];
      }
    }
    assert categories[..|categories|] == categories;
    biases := SortByConfidence(biases);
    extents := SortByConfidence(extents);
    ExtractPicksLeastConfident(categories);
    if |biases| == 0 {
      return Failure(NoBiasCategory);
    }
    if |extents| == 0 {
      return Failure(NoExtentCategory);
    }
    r := Success((biases[0], extents[0]));
  }

  /** The index of the most confident element, the earliest one among equals. */
  function GreatestIndex(s: seq<Category>): (i: nat)
    requires s != []
    ensures i < |s|
    ensures forall j :: 0 <= j < |s| ==> s[j].confidence <= s[i].confidence
    ensures forall j :: 0 <= j < i ==> s[j].confidence < s[i].confidence
  {
    if |s| == 1 then 0
    else
      var k := GreatestIndex(s[1..]) + 1;
      if s[0].confidence >= s[k].confidence then 0 else k
  }

  /** The selection the comment at backend/main.py:52 describes: the most confident member of each family. */
  function ExtractMostConfident(cats: seq<Category>): (r: Result<(Category, Category), ExtractError>)
    ensures r.Failure? <==> BiasFamily(cats) == [] || ExtentFamily(cats) == []
    ensures r.Success? ==>
      var (b, e) := r.value;
      && b in cats && IsBiasName(b.name)
      && e in cats && !IsBiasName(e.name)
      && (forall c :: c in cats && IsBiasName(c.name) ==> c.confidence <= b.confidence)
      && (forall c :: c in cats && !IsBiasName(c.name) ==> c.confidence <= e.confidence)
  {
    var bs, es := BiasFamily(cats), ExtentFamily(cats);
    FamiliesPartition(cats);
    if bs == [] then Failure(NoBiasCategory)
    else if es == [] then Failure(NoExtentCategory)
    else
      var b, e := bs[GreatestIndex(bs)], es[GreatestIndex(es)];
      assert forall c :: c in cats && IsBiasName(c.name) ==> c.confidence <= b.confidence by {
        forall c | c in cats && IsBiasName(c.name) ensures c.confidence <= b.confidence {
          var j :| 0 <= j < |bs| && bs[j] == c;
        }
      }
      assert forall c :: c in cats && !IsBiasName(c.name) ==> c.confidence <= e.confidence by {
        forall c | c in cats && !IsBiasName(c.name) ensures c.confidence <= e.confidence {
          var j :| 0 <= j < |es| && es[j] == c;
        }
      }
      Success((b, e))
  }

  /** A classifier output where the least and the most confident selections differ. */
  const Sample: seq<Category> := [Category("left", 0.2), Category("right", 0.9), Category("neutral", 0.1),
                                  Category("minimal", 0.7), Category("strong", 0.95)]

  lemma BiasFamilyAppend(cats: seq<Category>, c: Category)
    ensures BiasFamily(cats + [c]) == if IsBiasName(c.name) then BiasFamily(cats) + [c] else BiasFamily(cats)
  {
    assert (cats + [c])[..|cats|] == cats;
  }

  lemma ExtentFamilyAppend(cats: seq<Category>, c: Category)
    ensures ExtentFamily(cats + [c]) == if IsBiasName(c.name) then ExtentFamily(cats) else ExtentFamily(cats) + [c]
  {
    assert (cats + [c])[..|cats|] == cats;
  }

  lemma SampleFamilies()
    ensures BiasFamily(Sample) == [Sample[0], Sample[1], Sample[2]]
    ensures ExtentFamily(Sample) == [Sample[3], Sample[4]]
  {
    SampleBiasFamily();
    SampleExtentFamily();
  }

  lemma SampleBiasFamily()
    ensures BiasFamily(Sample) == [Sample[0], Sample[1], Sample[2]]
  {
    var c0, c1, c2, c3, c4 := Sample[0], Sample[1], Sample[2], Sample[3], Sample[4];
    var p1, p2, p3, p4 := [c0], [c0, c1], [c0, c1, c2], [c0, c1, c2, c3];
    assert BiasFamily(p1) == [c0] by { BiasFamilyAppend([], c0); assert [] + [c0] == p1; }
    assert BiasFamily(p2) == [c0, c1] by { BiasFamilyAppend(p1, c1); assert p1 + [c1] == p2; }
    assert BiasFamily(p3) == [c0, c1, c2] by { BiasFamilyAppend(p2, c2); assert p2 + [c2] == p3; }
    assert BiasFamily(p4) == [c0, c1, c2] by { BiasFamilyAppend(p3, c3); assert p3 + [c3] == p4; }
    BiasFamilyAppend(p4, c4);
    assert Sample == p4 + [c4];
  }

  lemma SampleExtentFamily()
    ensures ExtentFamily(Sample) == [Sample[3], Sample[4]]
  {
    var c0, c1, c2, c3, c4 := Sample[0], Sample[1], Sample[2], Sample[3], Sample[4];
    var p1, p2, p3, p4 := [c0], [c0, c1], [c0, c1, c2], [c0, c1, c2, c3];
    assert ExtentFamily(p1) == [] by { ExtentFamilyAppend([], c0); assert [] + [c0] == p1; }
    assert ExtentFamily(p2) == [] by { ExtentFamilyAppend(p1, c1); assert p1 + [c1] == p2; }
    assert ExtentFamily(p3) == [] by { ExtentFamilyAppend(p2, c2); assert p2 + [c2] == p3; }
    assert ExtentFamily(p4) == [c3] by { ExtentFamilyAppend(p3, c3); assert p3 + [c3] == p4; }
    ExtentFamilyAppend(p4, c4);
    assert Sample == p4 + [c4];
  }

  /**
   * On the output [left 0.2, right 0.9, neutral 0.1, minimal 0.7, strong 0.95] the source
   * returns (neutral, minimal), the least confident pair, where the most confident pair is
   * (right, strong).
   */
  lemma LeastConfidentCounterexample()
    ensures Extract(Sample) == Success((Category("neutral", 0.1), Category("minimal", 0.7)))
    ensures ExtractMostConfident(Sample) == Success((Category("right", 0.9), Category("strong", 0.95)))
  {
    SampleFamilies();
    var bs, es := BiasFamily(Sample), ExtentFamily(Sample);
    assert LeastIndex(bs[1..]) == 1;
    assert LeastIndex(bs) == 2;
    assert LeastIndex(es) == 0;
    assert GreatestIndex(bs[1..]) == 0;
    assert GreatestIndex(bs) == 1;
    assert GreatestIndex(es) == 1;
    SortHead(bs);
    SortHead(es);
  }
}
