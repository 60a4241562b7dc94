/** The source vocabularies of sl_transformer.py: `build_dynamic_vocab`
    (the set of the tokens seen) and `build_static_src_vocab` (every
    combination of a horizontal, a vertical and a depth direction, written
    as its non-empty words joined by "_"). */
module Vocabulary {
  import opened Strings

  const Horizontal: seq<string> := ["", "left", "right"]
  const Vertical: seq<string> := ["", "up", "down"]
  const Depth: seq<string> := ["", "front", "back"]

  /** The character between the words of an entry. */
  const Separator: char := '_'

  /** No element occurs twice. */
  predicate Distinct<T(==)>(s: seq<T>)
  {
    forall i, j :: 0 <= i < j < |s| ==> s[i] != s[j]
  }

  /** Two duplicate-free sequences with no common element concatenate to a
      duplicate-free sequence. */
  lemma DistinctConcat<T>(a: seq<T>, b: seq<T>)
    requires Distinct(a) && Distinct(b)
    requires forall x :: x in a ==> x !in b
    ensures Distinct(a + b)
  {
    forall i, j | 0 <= i < j < |a + b|
      ensures (a + b)[i] != (a + b)[j]
    {
      if i < |a| && |a| <= j {
        assert (a + b)[i] in a && (a + b)[j] == b[j - |a|];
      }
    }
  }

  /** `build_dynamic_vocab(data)`: `set(data)`. */
  function BuildDynamicVocab<T(!new)>(data: seq<T>): (r: set<T>)
    ensures forall x :: x in r <==> x in data
  {
    set x | x in data
  }

  /** The vocabulary is never larger than the data, and exactly as large
      when, and only when, no token is repeated. */
  lemma {:induction false} DynamicVocabSize<T(!new)>(data: seq<T>)
    ensures |BuildDynamicVocab(data)| <= |data|
    ensures |BuildDynamicVocab(data)| == |data| <==> Distinct(data)
  {
    if |data| > 0 {
      var init := data[..|data| - 1];
      var last := data[|data| - 1];
      DynamicVocabSize(init);
      assert BuildDynamicVocab(data) == BuildDynamicVocab(init) + {last};
      if last in init {
        var i :| 0 <= i < |init| && init[i] == last;
        assert data[i] == data[|data| - 1];
      } else if Distinct(init) {
        forall i, j | 0 <= i < j < |data|
          ensures data[i] != data[j]
        {
          if j < |data| - 1 {
            assert data[i] == init[i] && data[j] == init[j];
          } else {
            assert data[i] in init;
          }
        }
      } else {
        var i, j :| 0 <= i < j < |init| && init[i] == init[j];
        assert data[i] == data[j];
      }
    }
  }

  /** The triples `(x, y, z)` with `y` from `ys` and `z` from `zs`, `z` varying fastest. */
  function Triples<T>(x: T, ys: seq<T>, zs: seq<T>): (r: seq<(T, T, T)>)
    ensures |r| == |ys| * |zs|
  {
    if |ys| == 0 then []
    else seq(|zs|, k requires 0 <= k < |zs| => (x, ys[0], zs[k])) + Triples(x, ys[1..], zs)
  }

  /** A triple is produced exactly when its first component is `x` and the
      other two come from `ys` and `zs`. */
  lemma {:induction false} TriplesContain<T>(x: T, ys: seq<T>, zs: seq<T>, t: (T, T, T))
    ensures t in Triples(x, ys, zs) <==> t.0 == x && t.1 in ys && t.2 in zs
  {
    if |ys| > 0 {
      var row := seq(|zs|, k requires 0 <= k < |zs| => (x, ys[0], zs[k]));
      TriplesContain(x, ys[1..], zs, t);
      assert t in row <==> t.0 == x && t.1 == ys[0] && t.2 in zs by {
        if t.0 == x && t.1 == ys[0] && t.2 in zs {
          var k :| 0 <= k < |zs| && zs[k] == t.2;
          assert row[k] == t;
        }
      }
      assert t.1 in ys <==> t.1 == ys[0] || t.1 in ys[1..] by {
        assert ys == [ys[0]] + ys[1..];
      }
    }
  }

  /** `itertools.product(xs, ys, zs)`, in lexicographic order. */
  function Product3<T>(xs: seq<T>, ys: seq<T>, zs: seq<T>): (r: seq<(T, T, T)>)
    ensures |r| == |xs| * (|ys| * |zs|)
  {
    if |xs| == 0 then []
    else Triples(xs[0], ys, zs) + Product3(xs[1..], ys, zs)
  }

  /** The product holds exactly the triples drawn from the three factors. */
  lemma {:induction false} ProductContains<T>(xs: seq<T>, ys: seq<T>, zs: seq<T>, t: (T, T, T))
    ensures t in Product3(xs, ys, zs) <==> t.0 in xs && t.1 in ys && t.2 in zs
  {
    if |xs| > 0 {
      TriplesContain(xs[0], ys, zs, t);
      ProductContains(xs[1..], ys, zs, t);
      assert t.0 in xs <==> t.0 == xs[0] || t.0 in xs[1..] by {
        assert xs == [xs[0]] + xs[1..];
      }
    }
  }

  /** Duplicate-free factors give duplicate-free triples. */
  lemma {:induction false} TriplesDistinct<T>(x: T, ys: seq<T>, zs: seq<T>)
    requires Distinct(ys) && Distinct(zs)
    ensures Distinct(Triples(x, ys, zs))
  {
    if |ys| > 0 {
      var row := seq(|zs|, k requires 0 <= k < |zs| => (x, ys[0], zs[k]));
      TriplesDistinct(x, ys[1..], zs);
      assert ys[0] !in ys[1..];
      forall u | u in row
        ensures u !in Triples(x, ys[1..], zs)
      {
        TriplesContain(x, ys[1..], zs, u);
      }
      DistinctConcat(row, Triples(x, ys[1..], zs));
    }
  }

  /** Duplicate-free factors give a duplicate-free product. */
  lemma {:induction false} ProductDistinct<T>(xs: seq<T>, ys: seq<T>, zs: seq<T>)
    requires Distinct(xs) && Distinct(ys) && Distinct(zs)
    ensures Distinct(Product3(xs, ys, zs))
  {
    if |xs| > 0 {
      TriplesDistinct(xs[0], ys, zs);
      ProductDistinct(xs[1..], ys, zs);
      assert xs[0] !in xs[1..];
      forall u | u in Triples(xs[0], ys, zs)
        ensures u !in Product3(xs[1..], ys, zs)
      {
        TriplesContain(xs[0], ys, zs, u);
        ProductContains(xs[1..], ys, zs, u);
      }
      DistinctConcat(Triples(xs[0], ys, zs), Product3(xs[1..], ys, zs));
    }
  }

  /** `filter(lambda v: v != "", parts)`. */
  function NonEmptyParts(parts: seq<string>): (r: seq<string>)
    ensures forall w :: w in r <==> w in parts && w != ""
    ensures forall i :: 0 <= i < |r| ==> r[i] != ""
  {
    if |parts| == 0 then []
    else
      assert forall w :: w in parts <==> w == parts[0] || w in parts[1..];
      (if parts[0] != "" then [parts[0]] else []) + NonEmptyParts(parts[1..])
  }

  /** Filtering distributes over concatenation: the kept words of `a + b`
      are those of `a` followed by those of `b`, in order. */
  lemma {:induction false} NonEmptyPartsAppend(a: seq<string>, b: seq<string>)
    ensures NonEmptyParts(a + b) == NonEmptyParts(a) + NonEmptyParts(b)
  {
    if |a| == 0 {
      assert a + b == b;
    } else {
      assert (a + b)[0] == a[0];
      assert (a + b)[1..] == a[1..] + b;
      NonEmptyPartsAppend(a[1..], b);
    }
  }

  /** A single word is kept exactly when it is not empty. */
  lemma NonEmptyPartsOne(w: string)
    ensures NonEmptyParts([w]) == if w != "" then [w] else []
  {
    assert [w][1..] == [];
  }

  /** The kept words of a triple are those of its three words, in order. */
  lemma NonEmptyPartsTriple(a: string, b: string, c: string)
    ensures NonEmptyParts([a, b, c]) == NonEmptyParts([a]) + NonEmptyParts([b]) + NonEmptyParts([c])
  {
    assert [a, b, c] == [a] + ([b] + [c]);
    NonEmptyPartsAppend([a], [b] + [c]);
    NonEmptyPartsAppend([b], [c]);
  }

  /** The vocabulary entry of one direction triple: `"_".join(filter(lambda v: v != "", c))`;
      it is empty exactly when all three directions are. */
  function Entry(c: (string, string, string)): (r: string)
    ensures r == "" <==> c.0 == "" && c.1 == "" && c.2 == ""
  {
    var parts := NonEmptyParts([c.0, c.1, c.2]);
    assert |parts| == 0 <==> c.0 == "" && c.1 == "" && c.2 == "" by {
      if c.0 != "" { assert c.0 in parts; }
      if c.1 != "" { assert c.1 in parts; }
      if c.2 != "" { assert c.2 in parts; }
      if |parts| > 0 { assert parts[0] in [c.0, c.1, c.2]; }
    }
    assert |parts| > 0 ==> |Join(parts, [Separator])| >= |parts[0]| > 0 by {
      if |parts| > 0 { JoinLength(parts, [Separator]); }
    }
    Join(parts, [Separator])
  }

  /** The direction triples `build_static_src_vocab` enumerates. */
  function Directions(): (r: seq<(string, string, string)>)
    ensures |r| == 27
  {
    Product3(Horizontal, Vertical, Depth)
  }

  /** A triple is enumerated exactly when each direction comes from its list. */
  lemma DirectionsContain(t: (string, string, string))
    ensures t in Directions() <==> t.0 in Horizontal && t.1 in Vertical && t.2 in Depth
  {
    ProductContains(Horizontal, Vertical, Depth, t);
  }

  /** The list comprehension of `build_static_src_vocab`, one entry per triple. */
  function Entries(): (r: seq<string>)
    ensures |r| == |Directions()|
    ensures forall i :: 0 <= i < |r| ==> r[i] == Entry(Directions()[i])
  {
    var ds := Directions();
    seq(|ds|, i requires 0 <= i < |ds| => Entry(ds[i]))
  }

  /** `build_static_src_vocab()`. */
  function BuildStaticSrcVocab(): (r: set<string>)
    ensures forall t :: t in Directions() ==> Entry(t) in r
    ensures forall w :: w in r ==> exists i :: 0 <= i < |Directions()| && w == Entry(Directions()[i])
  {
    var es := Entries();
    assert forall t :: t in Directions() ==> Entry(t) in es by {
      forall t | t in Directions()
        ensures Entry(t) in es
      {
        var i :| 0 <= i < |Directions()| && Directions()[i] == t;
        assert es[i] == Entry(t);
      }
    }
    BuildDynamicVocab(es)
  }

  /** A word of one of the three direction lists is not in either of the
      other two, unless it is the empty word. */
  predicate WordListsDisjoint()
  {
    && (forall w :: w in Horizontal && w in Vertical ==> w == "")
    && (forall w :: w in Horizontal && w in Depth ==> w == "")
    && (forall w :: w in Vertical && w in Depth ==> w == "")
  }

  /** No direction word contains the separator. */
  predicate NoSeparator(w: string)
  {
    Separator !in w
  }

  lemma WordsDisjoint()
    ensures WordListsDisjoint()
    ensures forall w :: w in Horizontal || w in Vertical || w in Depth ==> NoSeparator(w)
  {
  }

  /** The non-empty words of a triple drawn from the lists, ready for `JoinInjective`. */
  lemma PartsOfTriple(t: (string, string, string))
    requires t.0 in Horizontal && t.1 in Vertical && t.2 in Depth
    ensures Words(NonEmptyParts([t.0, t.1, t.2]), Separator)
  {
    WordsDisjoint();
    var p := NonEmptyParts([t.0, t.1, t.2]);
    forall i | 0 <= i < |p|
      ensures Separator !in p[i]
    {
      assert p[i] in [t.0, t.1, t.2];
      assert NoSeparator(p[i]);
    }
  }

  /** Different direction triples get different entries: the separator
      occurs in no word and no word belongs to two lists. */
  lemma EntryInjective(c: (string, string, string), d: (string, string, string))
    requires c.0 in Horizontal && c.1 in Vertical && c.2 in Depth
    requires d.0 in Horizontal && d.1 in Vertical && d.2 in Depth
    requires Entry(c) == Entry(d)
    ensures c == d
  {
    PartsOfTriple(c);
    PartsOfTriple(d);
    JoinInjective(NonEmptyParts([c.0, c.1, c.2]), NonEmptyParts([d.0, d.1, d.2]), Separator);
    SameWords(c, d);
    SameWordsSameTriple(c, d);
  }

  /** Triples with the same non-empty parts have the same non-empty words. */
  lemma SameWords(c: (string, string, string), d: (string, string, string))
    requires NonEmptyParts([c.0, c.1, c.2]) == NonEmptyParts([d.0, d.1, d.2])
    ensures forall w :: w in [c.0, c.1, c.2] && w != "" <==> w in [d.0, d.1, d.2] && w != ""
  {
    var p := NonEmptyParts([c.0, c.1, c.2]);
    forall w
      ensures w in [c.0, c.1, c.2] && w != "" <==> w in [d.0, d.1, d.2] && w != ""
    {
      assert w in p <==> w in [c.0, c.1, c.2] && w != "";
    }
  }

  /** Two triples from the lists with the same non-empty words are equal. */
  lemma SameWordsSameTriple(c: (string, string, string), d: (string, string, string))
    requires c.0 in Horizontal && c.1 in Vertical && c.2 in Depth
    requires d.0 in Horizontal && d.1 in Vertical && d.2 in Depth
    requires forall w :: w in [c.0, c.1, c.2] && w != "" <==> w in [d.0, d.1, d.2] && w != ""
    ensures c == d
  {
    WordsDisjoint();
    if c.0 != "" { assert c.0 in [d.0, d.1, d.2]; }
    if d.0 != "" { assert d.0 in [c.0, c.1, c.2]; }
    if c.1 != "" { assert c.1 in [d.0, d.1, d.2]; }
    if d.1 != "" { assert d.1 in [c.0, c.1, c.2]; }
    if c.2 != "" { assert c.2 in [d.0, d.1, d.2]; }
    if d.2 != "" { assert d.2 in [c.0, c.1, c.2]; }
  }

  /** The three direction lists hold no duplicates. */
  lemma ListsDistinct()
    ensures Distinct(Horizontal) && Distinct(Vertical) && Distinct(Depth)
  {
  }

  /** The static vocabulary has one entry per direction triple: 27 words. */
  lemma StaticVocabSize()
    ensures |BuildStaticSrcVocab()| == 27
  {
    var ds := Directions();
    var es := Entries();
    ListsDistinct();
    ProductDistinct(Horizontal, Vertical, Depth);
    forall i, j | 0 <= i < j < |es|
      ensures es[i] != es[j]
    {
      if es[i] == es[j] {
        assert ds[i] in ds && ds[j] in ds;
        DirectionsContain(ds[i]);
        DirectionsContain(ds[j]);
        EntryInjective(ds[i], ds[j]);
      }
    }
    DynamicVocabSize(es);
  }

  /** Joining two words with "_". */
  lemma JoinTwo(a: string, b: string)
    ensures Join([a, b], [Separator]) == a + [Separator] + b
  {
    assert [a, b][1..] == [b];
  }

  /** Joining three words with "_". */
  lemma JoinThree(a: string, b: string, c: string)
    ensures Join([a, b, c], [Separator]) == a + [Separator] + b + [Separator] + c
  {
    assert [a, b, c][1..] == [b, c];
    JoinTwo(b, c);
  }

  /** The entry of the all-empty triple is the empty word. */
  lemma EmptyEntry()
    ensures Entry(("", "", "")) == ""
  {
    NonEmptyPartsTriple("", "", "");
    NonEmptyPartsOne("");
  }

  /** A triple of three non-empty words joins all three. */
  lemma EntryOfThree(a: string, b: string, c: string)
    requires a != "" && b != "" && c != ""
    ensures Entry((a, b, c)) == a + [Separator] + b + [Separator] + c
  {
    NonEmptyPartsTriple(a, b, c);
    NonEmptyPartsOne(a);
    NonEmptyPartsOne(b);
    NonEmptyPartsOne(c);
    assert NonEmptyParts([a, b, c]) == [a, b, c];
    JoinThree(a, b, c);
  }

  /** A full triple joins all three words. */
  lemma FullEntry()
    ensures Entry(("left", "up", "front")) == "left_up_front"
  {
    EntryOfThree("left", "up", "front");
  }

  /** A single direction is written on its own. */
  lemma SingleEntry()
    ensures Entry(("right", "", "")) == "right"
  {
    NonEmptyPartsTriple("right", "", "");
    NonEmptyPartsOne("right");
    NonEmptyPartsOne("");
  }

  /** Empty directions are skipped, not written as doubled separators. */
  lemma PairEntry()
    ensures Entry(("", "down", "back")) == "down_back"
  {
    NonEmptyPartsTriple("", "down", "back");
    NonEmptyPartsOne("");
    NonEmptyPartsOne("down");
    NonEmptyPartsOne("back");
    JoinTwo("down", "back");
  }

  /** Two words of the same list never share an entry: no triple is written "left_right". */
  lemma NoEntryCombinesOneList(t: (string, string, string))
    requires t.0 in Horizontal && t.1 in Vertical && t.2 in Depth
    ensures Entry(t) != "left_right"
  {
    if Entry(t) == "left_right" {
      PartsOfTriple(t);
      LeftRight();
      JoinInjective(NonEmptyParts([t.0, t.1, t.2]), ["left", "right"], Separator);
      assert "left" in NonEmptyParts([t.0, t.1, t.2]);
      assert "right" in NonEmptyParts([t.0, t.1, t.2]);
      HorizontalWordIsFirst(t, "left");
      HorizontalWordIsFirst(t, "right");
    }
  }

  /** "left_right" is the join of two separator-free words. */
  lemma LeftRight()
    ensures Words(["left", "right"], Separator)
    ensures Join(["left", "right"], [Separator]) == "left_right"
  {
    JoinTwo("left", "right");
    WordsDisjoint();
    assert NoSeparator("left") && NoSeparator("right");
  }

  /** A non-empty horizontal word among a triple's words is its first one. */
  lemma HorizontalWordIsFirst(t: (string, string, string), w: string)
    requires t.0 in Horizontal && t.1 in Vertical && t.2 in Depth
    requires w in Horizontal && w != "" && w in [t.0, t.1, t.2]
    ensures t.0 == w
  {
    WordsDisjoint();
  }

  /** Every triple drawn from the lists has its entry in the static vocabulary. */
  lemma InStaticVocab(t: (string, string, string))
    requires t.0 in Horizontal && t.1 in Vertical && t.2 in Depth
    ensures Entry(t) in BuildStaticSrcVocab()
  {
    DirectionsContain(t);
  }

  /** The empty word is in the static vocabulary: all three directions empty. */
  lemma EmptyWordInStaticVocab()
    ensures "" in BuildStaticSrcVocab()
  {
    EmptyEntry();
    InStaticVocab(("", "", ""));
  }

  /** "left_up_front" is in the static vocabulary. */
  lemma FullEntryInStaticVocab()
    ensures "left_up_front" in BuildStaticSrcVocab()
  {
    FullEntry();
    InStaticVocab(("left", "up", "front"));
  }

  /** "right" is in the static vocabulary. */
  lemma SingleEntryInStaticVocab()
    ensures "right" in BuildStaticSrcVocab()
  {
    SingleEntry();
    InStaticVocab(("right", "", ""));
  }

  /** "down_back" is in the static vocabulary. */
  lemma PairEntryInStaticVocab()
    ensures "down_back" in BuildStaticSrcVocab()
  {
    PairEntry();
    InStaticVocab(("", "down", "back"));
  }

  /** "left_right" is not in the static vocabulary. */
  lemma LeftRightNotInStaticVocab()
    ensures "left_right" !in BuildStaticSrcVocab()
  {
    if "left_right" in BuildStaticSrcVocab() {
      var i :| 0 <= i < |Directions()| && "left_right" == Entry(Directions()[i]);
      DirectionsContain(Directions()[i]);
      NoEntryCombinesOneList(Directions()[i]);
    }
  }
}
