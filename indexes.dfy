/*
 * The n-gram indexes InvertedIndex and NGramIndex: documents are numbered
 * in insertion order (an `OrderedSet`, so a text is stored once), and a
 * posting map sends each n-gram of a (normalised) document to the set of
 * IDs of the documents that contain it. InvertedIndex also deletes, by
 * tombstoning an ID, and compacts.
 */
module NGramIndexes {
  import opened Wrappers
  import opened Strings
  import Tries

  /** `[String: Set<Int>]` */
  type Postings = map<string, set<nat>>

  /** `index[gram] ?? []` */
  function PostingsOf(index: Postings, g: string): set<nat> {
    if g in index then index[g] else {}
  }

  /** No gram is kept with an empty posting set. */
  ghost predicate NoEmptyPosting(index: Postings) {
    forall g :: g in index ==> index[g] != {}
  }

  /** The text as it is indexed: lower-cased unless case matters. */
  function Normalized(caseSensitive: bool, text: string): (r: string)
    ensures |r| == |text|
  {
    if caseSensitive then text else Lower(text)
  }

  /**
   * The posting invariant: the map holds no empty set, and an ID is posted
   * under a gram exactly when the document with that ID is live (not
   * tombstoned) and its normalised text contains the gram.
   */
  ghost predicate Indexed(index: Postings, documents: seq<string>, tombstones: set<nat>, n: int, caseSensitive: bool) {
    NoEmptyPosting(index) &&
    forall g, id: nat {:trigger id in PostingsOf(index, g)} {:trigger IsGram(g, Normalized(caseSensitive, documents[id]), n)} ::
      id in PostingsOf(index, g) <==>
      id < |documents| && id !in tombstones && IsGram(g, Normalized(caseSensitive, documents[id]), n)
  }

  /** Every gram of the query occurs in the document. */
  ghost predicate HasAllGrams(query: string, doc: string, n: int) {
    forall g :: IsGram(g, query, n) ==> IsGram(g, doc, n)
  }

  /** `index[gram, default: []].insert(docID)` for every gram of the list. */
  method Post(index: Postings, grams: seq<string>, id: nat) returns (index': Postings)
    requires NoEmptyPosting(index)
    ensures NoEmptyPosting(index')
    ensures forall g :: PostingsOf(index', g) == if g in grams then PostingsOf(index, g) + {id} else PostingsOf(index, g)
  {
    index' := index;
    for i := 0 to |grams|
      invariant NoEmptyPosting(index')
      invariant forall g :: PostingsOf(index', g) == if g in grams[..i] then PostingsOf(index, g) + {id} else PostingsOf(index, g)
    {
      var g := grams[i];
      assert grams[..i + 1] == grams[..i] + [g];
      index' := index'[g := PostingsOf(index', g) + {id}];
    }
    assert grams[..|grams|] == grams;
  }

  /**
   * The loop of `delete(documentID:)`: for every gram of the list take the
   * ID out of its posting set, and drop the gram once the set is empty.
   */
  method Unpost(index: Postings, grams: seq<string>, id: nat) returns (index': Postings)
    requires NoEmptyPosting(index)
    ensures NoEmptyPosting(index')
    ensures forall g :: PostingsOf(index', g) == if g in grams then PostingsOf(index, g) - {id} else PostingsOf(index, g)
  {
    index' := index;
    for i := 0 to |grams|
      invariant NoEmptyPosting(index')
      invariant forall g :: PostingsOf(index', g) == if g in grams[..i] then PostingsOf(index, g) - {id} else PostingsOf(index, g)
    {
      var g := grams[i];
      assert grams[..i + 1] == grams[..i] + [g];
      if g in index' {
        var rest := index'[g] - {id};
        if rest == {} {
          index' := index' - {g};
        } else {
          index' := index'[g := rest];
        }
      }
    }
    assert grams[..|grams|] == grams;
  }

  /** The distinct grams of a list. */
  function GramSet(grams: seq<string>): (r: set<string>)
    ensures forall g :: g in r <==> g in grams
  {
    set g | g in grams
  }

  /** The ID is posted under every gram of the set. */
  ghost predicate InAll(index: Postings, grams: set<string>, id: nat) {
    forall g :: g in grams ==> id in PostingsOf(index, g)
  }

  /**
   * `findMatchingDocumentIDs`: nothing for no grams; otherwise intersect the
   * posting sets of the distinct grams, in the unspecified order of the
   * set, and give up with nothing at the first gram that has none.
   */
  method FindMatching(index: Postings, grams: seq<string>) returns (ids: set<nat>)
    ensures grams == [] ==> ids == {}
    ensures grams != [] ==> forall id: nat :: id in ids <==> InAll(index, GramSet(grams), id)
  {
    if grams == [] {
      return {};
    }
    var all := GramSet(grams);
    var result: Option<set<nat>> := None;
    var rest := all;
    while rest != {}
      invariant rest <= all
      invariant result.None? <==> rest == all
      invariant result.Some? ==> forall id: nat :: id in result.value <==> InAll(index, all - rest, id)
      decreases rest
    {
      var g :| g in rest;
      if g !in index {
        assert forall id: nat :: !InAll(index, all, id) by {
          assert g in all;
        }
        return {};
      }
      var docIDs := index[g];
      assert all - (rest - {g}) == (all - rest) + {g};
      result := if result.Some? then Some(result.value * docIDs) else Some(docIDs);
      rest := rest - {g};
    }
    assert grams[0] in all;
    ids := if result.Some? then result.value else {};
  }

  /**
   * The loop of NGramIndex's `search`: intersect the posting sets of the
   * grams in list order (repeats included), giving up with `None` at the
   * first gram that has none.
   */
  method FindMatchingInOrder(index: Postings, grams: seq<string>) returns (ids: Option<set<nat>>)
    ensures grams == [] ==> ids == None
    ensures ids.Some? ==> forall id: nat :: id in ids.value <==> InAll(index, GramSet(grams), id)
    ensures grams != [] && ids.None? ==> forall id: nat :: !InAll(index, GramSet(grams), id)
  {
    ids := None;
    for i := 0 to |grams|
      invariant ids.None? <==> i == 0
      invariant ids.Some? ==> forall id: nat :: id in ids.value <==> InAll(index, GramSet(grams[..i]), id)
    {
      var g := grams[i];
      assert grams[..i + 1] == grams[..i] + [g];
      if g !in index {
        assert forall id: nat :: !InAll(index, GramSet(grams), id) by {
          assert g in GramSet(grams);
        }
        return None;
      }
      assert GramSet(grams[..i + 1]) == GramSet(grams[..i]) + {g};
      ids := if ids.Some? then Some(ids.value * index[g]) else Some(index[g]);
    }
    assert grams[..|grams|] == grams;
  }

  /**
   * `ids.map { documents[$0] }` over a `Set`: the documents with those IDs,
   * in the unspecified order of the set (`order` is the order taken).
   */
  method DocumentsOf(documents: seq<string>, ids: set<nat>) returns (r: seq<string>, ghost order: seq<nat>)
    requires forall id: nat :: id in ids ==> id < |documents|
    ensures |r| == |order| && Tries.Distinct(order)
    ensures forall i :: 0 <= i < |order| ==> order[i] < |documents| && r[i] == documents[order[i]]
    ensures forall id: nat :: id in order <==> id in ids
  {
    r, order := [], [];
    var rest := ids;
    while rest != {}
      invariant |r| == |order| && Tries.Distinct(order)
      invariant forall i :: 0 <= i < |order| ==> order[i] < |documents| && r[i] == documents[order[i]]
      invariant rest <= ids && forall id: nat :: id in order <==> id in ids - rest
      decreases rest
    {
      var id :| id in rest;
      assert id !in order;
      r, order := r + [documents[id]], order + [id];
      rest := rest - {id};
    }
  }

  /**
   * `ids.sorted().map { documents[$0] }`: the documents with those IDs in
   * ascending order of ID, found by scanning the IDs in order.
   */
  method AscendingDocumentsOf(documents: seq<string>, ids: set<nat>) returns (r: seq<string>, ghost order: seq<nat>)
    requires forall id: nat :: id in ids ==> id < |documents|
    ensures |r| == |order|
    ensures forall i :: 0 <= i < |order| ==> order[i] < |documents| && r[i] == documents[order[i]]
    ensures forall i, j :: 0 <= i < j < |order| ==> order[i] < order[j]
    ensures forall id: nat :: id in order <==> id in ids
  {
    r, order := [], [];
    for k := 0 to |documents|
      invariant |r| == |order|
      invariant forall i :: 0 <= i < |order| ==> order[i] < k && r[i] == documents[order[i]]
      invariant forall i, j :: 0 <= i < j < |order| ==> order[i] < order[j]
      invariant forall id: nat :: id in order <==> id in ids && id < k
    {
      if k in ids {
        r, order := r + [documents[k]], order + [k];
      }
    }
  }

  /** The documents that survive `compact`: those whose ID is not tombstoned, in their order. */
  function Survivors(documents: seq<string>, tombstones: set<nat>): (r: seq<string>)
    ensures |r| <= |documents|
    decreases |documents|
  {
    if documents == [] then []
    else
      var last := |documents| - 1;
      Survivors(documents[..last], tombstones) + if last in tombstones then [] else [documents[last]]
  }

  /** Every survivor is a document whose ID is not tombstoned. */
  lemma {:induction false} SurvivorHasLiveId(documents: seq<string>, tombstones: set<nat>, d: string) returns (id: nat)
    requires d in Survivors(documents, tombstones)
    ensures id < |documents| && id !in tombstones && documents[id] == d
    decreases |documents|
  {
    var last := |documents| - 1;
    var init := documents[..last];
    if d in Survivors(init, tombstones) {
      id := SurvivorHasLiveId(init, tombstones, d);
      assert documents[id] == init[id];
    } else {
      id := last;
    }
  }

  /** Every document whose ID is not tombstoned survives. */
  lemma {:induction false} LiveIdSurvives(documents: seq<string>, tombstones: set<nat>, id: nat)
    requires id < |documents| && id !in tombstones
    ensures documents[id] in Survivors(documents, tombstones)
    decreases |documents|
  {
    var last := |documents| - 1;
    if id < last {
      var init := documents[..last];
      LiveIdSurvives(init, tombstones, id);
      assert init[id] == documents[id];
    }
  }

  /** `firstIndex(of:)`: the position of the first occurrence of a stored text. */
  function IndexOf(documents: seq<string>, text: string): (id: nat)
    requires text in documents
    ensures id < |documents| && documents[id] == text
    ensures forall j :: 0 <= j < id ==> documents[j] != text
  {
    if documents[0] == text then 0 else 1 + IndexOf(documents[1..], text)
  }

  /**
   * The document list after `addDocument` of each text in turn: a text not
   * stored yet is appended, one already stored (or added earlier in the
   * same batch) is skipped.
   */
  function Appended(documents: seq<string>, texts: seq<string>): (r: seq<string>)
    ensures |documents| <= |r| && r[..|documents|] == documents
    ensures forall d :: d in r ==> d in documents || d in texts
    ensures forall d :: d in documents || d in texts ==> d in r
    ensures Tries.Distinct(documents) ==> Tries.Distinct(r)
    decreases |texts|
  {
    if texts == [] then documents
    else
      var before := Appended(documents, texts[..|texts| - 1]);
      var t := texts[|texts| - 1];
      assert texts == texts[..|texts| - 1] + [t];
      if t in before then before else before + [t]
  }

  /** When every text is new and none repeats, the texts are appended as they are. */
  lemma {:induction false} AppendedAllNew(documents: seq<string>, texts: seq<string>)
    requires Tries.Distinct(texts) && forall t :: t in texts ==> t !in documents
    ensures Appended(documents, texts) == documents + texts
    decreases |texts|
  {
    if texts != [] {
      var init := texts[..|texts| - 1];
      var t := texts[|texts| - 1];
      assert texts == init + [t];
      AppendedAllNew(documents, init);
      assert t !in init by {
        forall k | 0 <= k < |init| ensures init[k] != t {
          assert init[k] == texts[k];
        }
      }
    }
  }

  /** Distinct documents leave distinct survivors. */
  lemma {:induction false} SurvivorsDistinct(documents: seq<string>, tombstones: set<nat>)
    requires Tries.Distinct(documents)
    ensures Tries.Distinct(Survivors(documents, tombstones))
    decreases |documents|
  {
    if documents != [] {
      var last := |documents| - 1;
      var init := documents[..last];
      assert Tries.Distinct(init) by {
        forall i, j | 0 <= i < j < |init| ensures init[i] != init[j] {
          assert init[i] == documents[i] && init[j] == documents[j];
        }
      }
      SurvivorsDistinct(init, tombstones);
      if documents[last] in Survivors(init, tombstones) {
        var id := SurvivorHasLiveId(init, tombstones, documents[last]);
        assert false;
      }
    }
  }

  /** `InvertedIndex`: always lower-cases; deletes by tombstoning an ID. */
  class InvertedIndex {
    var index: Postings
    var documents: seq<string>
    var tombstones: set<nat>
    const gramSize: int

    ghost predicate Valid()
      reads this
    {
      gramSize >= 2 && Tries.Distinct(documents) &&
      (forall id: nat :: id in tombstones ==> id < |documents|) &&
      Indexed(index, documents, tombstones, gramSize, false)
    }

    /** The document with this ID was added and not deleted. */
    ghost predicate Live(id: nat)
      reads this
    {
      id < |documents| && id !in tombstones
    }

    /** `init(gramSize:)`: the gram size must be at least 2. */
    constructor (gramSize: int)
      requires gramSize >= 2
      ensures Valid() && this.gramSize == gramSize
      ensures index == map[] && documents == [] && tombstones == {}
    {
      this.gramSize := gramSize;
      index := map[];
      documents := [];
      tombstones := {};
      new;
      assert forall g :: PostingsOf(index, g) == {};
    }

    /** `documents.firstIndex(of:)` */
    method FirstIndex(text: string) returns (r: Option<nat>)
      requires Valid()
      ensures r.None? <==> text !in documents
      ensures r.Some? ==> r.value < |documents| && documents[r.value] == text
      ensures r.Some? ==> forall j :: 0 <= j < r.value ==> documents[j] != text
    {
      if text in documents {
        return Some(IndexOf(documents, text));
      }
      return None;
    }

    /**
     * `addDocument`: a text already stored keeps its ID, even a tombstoned
     * one, and nothing changes; a new text gets the next ID and is posted
     * under every gram of its lower-cased form.
     */
    method AddDocument(text: string) returns (id: nat)
      requires Valid()
      modifies this
      ensures Valid()
      ensures text in old(documents) ==>
        id < |documents| && documents[id] == text &&
        documents == old(documents) && index == old(index) && tombstones == old(tombstones)
      ensures text !in old(documents) ==>
        id == |old(documents)| && documents == old(documents) + [text] && tombstones == old(tombstones) &&
        forall g :: PostingsOf(index, g) ==
          if IsGram(g, Lower(text), gramSize) then PostingsOf(old(index), g) + {id} else PostingsOf(old(index), g)
    {
      var found := FirstIndex(text);
      if found.Some? {
        return found.value;
      }
      id := |documents|;
      documents := documents + [text];
      var grams := NGrams(Lower(text), gramSize);
      index := Post(index, grams, id);
      assert Indexed(index, documents, tombstones, gramSize, false) by {
        forall g, d: nat ensures d in PostingsOf(index, g) <==>
          d < |documents| && d !in tombstones && IsGram(g, Normalized(false, documents[d]), gramSize)
        {
          if d < id {
            assert documents[d] == old(documents)[d];
          }
        }
      }
    }

    /** `addDocuments`: add the texts one after the other. */
    method AddDocuments(texts: seq<string>)
      requires Valid()
      modifies this
      ensures Valid() && tombstones == old(tombstones)
      ensures documents == Appended(old(documents), texts)
      ensures |old(documents)| <= |documents| && documents[..|old(documents)|] == old(documents)
      ensures forall d :: d in documents <==> d in old(documents) || d in texts
      ensures Tries.Distinct(texts) && (forall t :: t in texts ==> t !in old(documents)) ==> documents == old(documents) + texts
    {
      for i := 0 to |texts|
        invariant Valid() && tombstones == old(tombstones)
        invariant documents == Appended(old(documents), texts[..i])
      {
        assert texts[..i + 1][..i] == texts[..i];
        var _ := AddDocument(texts[i]);
      }
      assert texts[..|texts|] == texts;
      if Tries.Distinct(texts) && (forall t :: t in texts ==> t !in old(documents)) {
        AppendedAllNew(old(documents), texts);
      }
    }

    /**
     * `search`: the live documents that contain every gram of the
     * lower-cased query, in ascending order of ID (`order`); none when the
     * query is shorter than the gram size.
     */
    method Search(query: string) returns (r: seq<string>, ghost order: seq<nat>)
      requires Valid()
      ensures |r| == |order|
      ensures forall i :: 0 <= i < |order| ==> order[i] < |documents| && r[i] == documents[order[i]]
      ensures forall i, j :: 0 <= i < j < |order| ==> order[i] < order[j]
      ensures forall id: nat :: id in order <==>
        Live(id) && |query| >= gramSize && HasAllGrams(Lower(query), Lower(documents[id]), gramSize)
    {
      var q := Lower(query);
      var grams := NGrams(q, gramSize);
      var ids := FindMatching(index, grams);
      ids := ids - tombstones;
      forall id: nat ensures id in ids <==> Live(id) && |query| >= gramSize && HasAllGrams(q, Lower(documents[id]), gramSize) {
        if grams != [] {
          MatchingIds(index, documents, tombstones, gramSize, false, q, grams, id);
        }
      }
      r, order := AscendingDocumentsOf(documents, ids);
    }

    /**
     * `search(withGram:)`: nothing unless the gram has the gram size;
     * otherwise the documents posted under it, as they are (no case
     * folding of the gram), in the unspecified order of the set.
     */
    method SearchWithGram(gram: string) returns (r: seq<string>, ghost order: seq<nat>)
      requires Valid()
      ensures |gram| != gramSize ==> r == []
      ensures |r| == |order| && Tries.Distinct(order)
      ensures forall i :: 0 <= i < |order| ==> order[i] < |documents| && r[i] == documents[order[i]]
      ensures forall id: nat :: id in order <==> Live(id) && IsGram(gram, Lower(documents[id]), gramSize)
    {
      if |gram| != gramSize {
        return [], [];
      }
      assert forall id: nat :: id in PostingsOf(index, gram) ==> id < |documents|;
      r, order := DocumentsOf(documents, PostingsOf(index, gram));
    }

    /**
     * `delete(documentID:)`: an ID that was never given out or is already
     * tombstoned is ignored; otherwise the ID leaves the posting set of
     * every gram of the document (empty sets are dropped) and is tombstoned.
     */
    method Delete(documentID: nat)
      requires Valid()
      modifies this
      ensures Valid() && documents == old(documents)
      ensures documentID >= |documents| || documentID in old(tombstones) ==>
        index == old(index) && tombstones == old(tombstones)
      ensures documentID < |documents| && documentID !in old(tombstones) ==>
        tombstones == old(tombstones) + {documentID} &&
        forall g :: PostingsOf(index, g) == PostingsOf(old(index), g) - {documentID}
    {
      if documentID >= |documents| || documentID in tombstones {
        return;
      }
      var text := documents[documentID];
      var grams := NGrams(Lower(text), gramSize);
      index := Unpost(index, grams, documentID);
      tombstones := tombstones + {documentID};
    }

    /** `delete(_ text:)`: delete the document with this text, if there is one. */
    method DeleteText(text: string)
      requires Valid()
      modifies this
      ensures Valid() && documents == old(documents)
      ensures text !in documents ==> index == old(index) && tombstones == old(tombstones)
      ensures text in documents ==> exists id: nat :: 0 <= id < |documents| && documents[id] == text && id in tombstones
      ensures text in documents ==>
        tombstones == old(tombstones) + {IndexOf(documents, text)} &&
        forall g :: PostingsOf(index, g) == PostingsOf(old(index), g) - {IndexOf(documents, text)}
    {
      var found := FirstIndex(text);
      if found.Some? {
        var id := found.value;
        assert id == IndexOf(documents, text);
        if id in tombstones {
          forall g ensures PostingsOf(index, g) - {id} == PostingsOf(index, g) {
            assert id !in PostingsOf(index, g);
          }
        }
        Delete(id);
      }
    }

    /**
     * `compact`: rebuild the index from the surviving documents, in their
     * order; they are renumbered from 0 and no ID is tombstoned.
     */
    method Compact()
      requires Valid()
      modifies this
      ensures Valid() && tombstones == {}
      ensures documents == Survivors(old(documents), old(tombstones))
      ensures forall d :: d in documents <==> exists id: nat :: old(Live(id)) && old(documents)[id] == d
    {
      var survivors := Survivors(documents, tombstones);
      SurvivorsDistinct(documents, tombstones);
      forall d ensures d in survivors <==> exists id: nat :: Live(id) && documents[id] == d {
        if d in survivors {
          var id := SurvivorHasLiveId(documents, tombstones, d);
        }
        if exists id: nat :: Live(id) && documents[id] == d {
          var id: nat :| Live(id) && documents[id] == d;
          LiveIdSurvives(documents, tombstones, id);
        }
      }
      index := map[];
      documents := [];
      tombstones := {};
      AddDocuments(survivors);
      assert [] + survivors == survivors;
    }
  }

  /** Under the posting invariant, the IDs posted under every query gram are the live documents that contain them all. */
  lemma MatchingIds(index: Postings, documents: seq<string>, tombstones: set<nat>, n: int, caseSensitive: bool,
                    q: string, grams: seq<string>, id: nat)
    requires Indexed(index, documents, tombstones, n, caseSensitive)
    requires grams != [] && forall g :: g in grams <==> IsGram(g, q, n)
    ensures InAll(index, GramSet(grams), id) <==>
      id < |documents| && id !in tombstones && HasAllGrams(q, Normalized(caseSensitive, documents[id]), n)
  {
    assert IsGram(grams[0], q, n);
    if InAll(index, GramSet(grams), id) {
      assert id in PostingsOf(index, grams[0]);
      forall g | IsGram(g, q, n) ensures IsGram(g, Normalized(caseSensitive, documents[id]), n) {
        assert id in PostingsOf(index, g);
      }
    }
  }

  /** `NGramIndex`: lower-cases unless case-sensitive; no delete. */
  class NGramIndex {
    var documents: seq<string>
    const n: int
    const caseSensitive: bool
    var index: Postings

    ghost predicate Valid()
      reads this
    {
      n >= 2 && Tries.Distinct(documents) && Indexed(index, documents, {}, n, caseSensitive)
    }

    /** `init(n:caseSensitive:)`: `n` must be at least 2. */
    constructor (n: int, caseSensitive: bool)
      requires n >= 2
      ensures Valid() && this.n == n && this.caseSensitive == caseSensitive
      ensures documents == [] && index == map[]
    {
      this.n := n;
      this.caseSensitive := caseSensitive;
      documents := [];
      index := map[];
    }

    /**
     * `addDocument`: a text already stored keeps its ID and nothing
     * changes; a new text gets the next ID and is posted under every gram
     * of its normalised form.
     */
    method AddDocument(text: string) returns (id: nat)
      requires Valid()
      modifies this
      ensures Valid()
      ensures text in old(documents) ==>
        id < |documents| && documents[id] == text && documents == old(documents) && index == old(index)
      ensures text !in old(documents) ==>
        id == |old(documents)| && documents == old(documents) + [text] &&
        forall g :: PostingsOf(index, g) ==
          if IsGram(g, Normalized(caseSensitive, text), n) then PostingsOf(old(index), g) + {id} else PostingsOf(old(index), g)
    {
      if text in documents {
        id :| 0 <= id < |documents| && documents[id] == text;
        return;
      }
      id := |documents|;
      documents := documents + [text];
      var normalized := if caseSensitive then text else Lower(text);
      var grams := NGrams(normalized, n);
      index := Post(index, grams, id);
      assert Indexed(index, documents, {}, n, caseSensitive) by {
        forall g, d: nat ensures d in PostingsOf(index, g) <==>
          d < |documents| && IsGram(g, Normalized(caseSensitive, documents[d]), n)
        {
          if d < id {
            assert documents[d] == old(documents)[d];
          }
        }
      }
    }

    /**
     * `search`: nothing when the normalised query is shorter than `n` or a
     * gram of it is not indexed; otherwise the documents that contain every
     * gram of it, in the unspecified order of a set (`order`).
     */
    method Search(query: string) returns (r: seq<string>, ghost order: seq<nat>)
      requires Valid()
      ensures |r| == |order| && Tries.Distinct(order)
      ensures forall i :: 0 <= i < |order| ==> order[i] < |documents| && r[i] == documents[order[i]]
      ensures forall id: nat :: id in order <==>
        id < |documents| && |query| >= n && HasAllGrams(Normalized(caseSensitive, query), Normalized(caseSensitive, documents[id]), n)
    {
      var q := if caseSensitive then query else Lower(query);
      var grams := NGrams(q, n);
      if grams == [] {
        return [], [];
      }
      var ids := FindMatchingInOrder(index, grams);
      if ids.None? {
        forall id: nat | id < |documents| ensures !HasAllGrams(q, Normalized(caseSensitive, documents[id]), n) {
          MatchingIds(index, documents, {}, n, caseSensitive, q, grams, id);
        }
        return [], [];
      }
      forall id: nat | id in ids.value ensures id < |documents| {
        MatchingIds(index, documents, {}, n, caseSensitive, q, grams, id);
      }
      r, order := DocumentsOf(documents, ids.value);
      forall id: nat ensures id in ids.value <==> id < |documents| && HasAllGrams(q, Normalized(caseSensitive, documents[id]), n) {
        MatchingIds(index, documents, {}, n, caseSensitive, q, grams, id);
      }
    }

    /**
     * `search(withGram:)`: nothing unless the gram has length `n`; otherwise
     * the documents posted under the gram as given (it is not normalised).
     */
    method SearchWithGram(gram: string) returns (r: seq<string>, ghost order: seq<nat>)
      requires Valid()
      ensures |gram| != n ==> r == []
      ensures |r| == |order| && Tries.Distinct(order)
      ensures forall i :: 0 <= i < |order| ==> order[i] < |documents| && r[i] == documents[order[i]]
      ensures forall id: nat :: id in order <==> id < |documents| && IsGram(gram, Normalized(caseSensitive, documents[id]), n)
    {
      if |gram| != n {
        return [], [];
      }
      assert forall id: nat :: id in PostingsOf(index, gram) ==> id < |documents|;
      r, order := DocumentsOf(documents, PostingsOf(index, gram));
    }
  }
}
