/**
 Canonical JSON: the text that signed documents are hashed as
 (sdk/js/src/index.js and crypto/signing.py).
 */
module CanonicalJson {
  import opened Collections
  import opened CodePoints
  import opened JsonText

  function Keys(fields: seq<Field>): (keys: seq<string>)
    ensures |keys| == |fields|
    ensures forall i :: 0 <= i < |keys| ==> keys[i] == fields[i].key
  {
    if fields == [] then [] else [fields[0].key] + Keys(fields[1..])
  }

  predicate DistinctKeys(fields: seq<Field>) {
    forall i, j :: 0 <= i < j < |fields| ==> fields[i].key != fields[j].key
  }

  /** Every object in the document has distinct keys. */
  predicate WellFormed(v: Json) {
    match v
    case Arr(items) => forall i :: 0 <= i < |items| ==> WellFormed(items[i])
    case Obj(fields) => DistinctKeys(fields) && forall i :: 0 <= i < |fields| ==> WellFormed(fields[i].value)
    case _ => true
  }

  /** value[k] for a key that is present. */
  function Lookup(fields: seq<Field>, k: string): (v: Json)
    requires k in Keys(fields)
    ensures exists i :: 0 <= i < |fields| && fields[i] == Field(k, v)
  {
    if fields[0].key == k then fields[0].value
    else
      assert Keys(fields)[1..] == Keys(fields[1..]);
      var v := Lookup(fields[1..], k);
      var i :| 0 <= i < |fields[1..]| && fields[1..][i] == Field(k, v);
      assert fields[i + 1] == Field(k, v);
      v
  }

  /** Object.keys(value).sort(compareCodePoints). */
  function SortedKeys(fields: seq<Field>): (keys: seq<string>)
    ensures multiset(keys) == multiset(Keys(fields)) && Sorted(keys)
    ensures forall k :: k in keys ==> k in Keys(fields)
  {
    SortCorrect(Keys(fields));
    var keys := Sort(Keys(fields));
    assert forall k :: k in keys ==> k in multiset(keys);
    keys
  }

  /** canonicalJson. */
  function Canonical(v: Json): string
    decreases v, 1, 0
  {
    match v
    case Arr(items) => "[" + CanonicalItems(items) + "]"
    case Obj(fields) => "{" + CanonicalFields(v, SortedKeys(fields)) + "}"
    case _ => Print(v)
  }

  /** The items' texts joined by commas. */
  function CanonicalItems(items: seq<Json>): string
    decreases items, 1, 0
  {
    if items == [] then ""
    else if |items| == 1 then Canonical(items[0])
    else Canonical(items[0]) + "," + CanonicalItems(items[1..])
  }

  /** The members named by keys, in that order, joined by commas. */
  function CanonicalFields(v: Json, keys: seq<string>): string
    requires v.Obj? && forall k :: k in keys ==> k in Keys(v.fields)
    decreases v, 0, |keys|
  {
    if keys == [] then ""
    else
      var text := Quote(keys[0]) + ":" + Canonical(Lookup(v.fields, keys[0]));
      if |keys| == 1 then text else text + "," + CanonicalFields(v, keys[1..])
  }

  // ----- the document that the canonical text spells out

  /** The document with the members of every object in key order. */
  function Norm(v: Json): Json
    decreases v, 1, 0
  {
    match v
    case Arr(items) => Arr(NormItems(items))
    case Obj(fields) => Obj(NormFields(v, SortedKeys(fields)))
    case _ => v
  }

  function NormItems(items: seq<Json>): (r: seq<Json>)
    ensures |r| == |items|
    ensures forall i :: 0 <= i < |items| ==> r[i] == Norm(items[i])
    decreases items, 1, 0
  {
    if items == [] then [] else [Norm(items[0])] + NormItems(items[1..])
  }

  function NormFields(v: Json, keys: seq<string>): (r: seq<Field>)
    requires v.Obj? && forall k :: k in keys ==> k in Keys(v.fields)
    ensures |r| == |keys|
    ensures forall i :: 0 <= i < |keys| ==> r[i] == Field(keys[i], Norm(Lookup(v.fields, keys[i])))
    decreases v, 0, |keys|
  {
    if keys == [] then [] else [Field(keys[0], Norm(Lookup(v.fields, keys[0])))] + NormFields(v, keys[1..])
  }

  lemma {:induction false} CanonicalIsPrint(v: Json)
    ensures Canonical(v) == Print(Norm(v))
    decreases v, 1, 0
  {
    hide Quote, Sort, Lookup;
    match v {
      case Arr(items) => CanonicalItemsArePrinted(items);
      case Obj(fields) => CanonicalFieldsArePrinted(v, SortedKeys(fields));
      case _ =>
    }
  }

  lemma {:induction false} CanonicalItemsArePrinted(items: seq<Json>)
    ensures CanonicalItems(items) == PrintItems(NormItems(items))
    decreases items, 1, 0
  {
    hide Norm, Canonical, Print;
    if items != [] {
      CanonicalIsPrint(items[0]);
      CanonicalItemsArePrinted(items[1..]);
      assert NormItems(items)[1..] == NormItems(items[1..]);
    }
  }

  lemma {:induction false} CanonicalFieldsArePrinted(v: Json, keys: seq<string>)
    requires v.Obj? && forall k :: k in keys ==> k in Keys(v.fields)
    ensures CanonicalFields(v, keys) == PrintFields(NormFields(v, keys))
    decreases v, 0, |keys|
  {
    hide Norm, Canonical, Print, Quote, Lookup, Keys;
    if keys != [] {
      CanonicalIsPrint(Lookup(v.fields, keys[0]));
      CanonicalFieldsArePrinted(v, keys[1..]);
      assert NormFields(v, keys)[1..] == NormFields(v, keys[1..]);
    }
  }

  // ----- the same document up to the order of members

  /** Equal apart from the order in which objects list their members. */
  ghost predicate Same(v: Json, w: Json) {
    match v
    case Arr(items) =>
      w.Arr? && |items| == |w.items| && forall i :: 0 <= i < |items| ==> Same(items[i], w.items[i])
    case Obj(fields) =>
      w.Obj? && |fields| == |w.fields| && forall i :: 0 <= i < |fields| ==> SameMember(fields[i], w.fields)
    case _ => v == w
  }

  /** Some member of fields has f's key and the same value. */
  ghost predicate SameMember(f: Field, fields: seq<Field>) {
    exists j :: 0 <= j < |fields| && fields[j].key == f.key && Same(f.value, fields[j].value)
  }

  lemma LookupOwnKey(fields: seq<Field>, i: nat)
    requires i < |fields| && DistinctKeys(fields)
    ensures fields[i].key in Keys(fields) && Lookup(fields, fields[i].key) == fields[i].value
  {
    assert Keys(fields)[i] == fields[i].key;
    var j :| 0 <= j < |fields| && fields[j] == Field(fields[i].key, Lookup(fields, fields[i].key));
    assert i == j;
  }

  lemma {:induction false} NormEqualMeansSame(v: Json, w: Json)
    requires WellFormed(v) && Norm(v) == Norm(w)
    ensures Same(v, w)
    decreases v
  {
    hide Lookup, Keys, Sort, Sorted, NormFields, NormItems;
    match v {
      case Arr(items) =>
        forall i | 0 <= i < |items|
          ensures Same(items[i], w.items[i])
        {
          assert NormItems(items)[i] == NormItems(w.items)[i];
          NormEqualMeansSame(items[i], w.items[i]);
        }
      case Obj(fields) =>
        var keys, others := SortedKeys(fields), SortedKeys(w.fields);
        assert |fields| == |multiset(keys)| && |w.fields| == |multiset(others)|;
        var sorted := NormFields(v, keys);
        assert sorted == NormFields(w, others);
        forall i | 0 <= i < |fields|
          ensures SameMember(fields[i], w.fields)
        {
          LookupOwnKey(fields, i);
          assert fields[i].key in multiset(keys);
          var p :| 0 <= p < |keys| && keys[p] == fields[i].key;
          assert sorted[p] == Field(others[p], Norm(Lookup(w.fields, others[p])));
          var j :| 0 <= j < |w.fields| && w.fields[j] == Field(others[p], Lookup(w.fields, others[p]));
          NormEqualMeansSame(fields[i].value, w.fields[j].value);
        }
      case _ =>
    }
  }

  /** Objects with the same members have the same sorted keys. */
  lemma SameSortedKeys(f: seq<Field>, g: seq<Field>)
    requires DistinctKeys(f) && DistinctKeys(g) && |f| == |g|
    requires forall i :: 0 <= i < |f| ==> SameMember(f[i], g)
    ensures SortedKeys(f) == SortedKeys(g)
  {
    hide Same, Leq, Keys;
    DistinctMultiset(Keys(f));
    DistinctMultiset(Keys(g));
    forall k | k in Elements(Keys(f))
      ensures k in Elements(Keys(g))
    {
      var i :| 0 <= i < |f| && Keys(f)[i] == k;
      var j :| 0 <= j < |g| && g[j].key == f[i].key;
      assert Keys(g)[j] == k;
    }
    SubsetOfSameSize(Elements(Keys(f)), Elements(Keys(g)));
    SortedUnique(SortedKeys(f), SortedKeys(g));
  }

  lemma {:induction false} SameMeansNormEqual(v: Json, w: Json)
    requires WellFormed(v) && WellFormed(w) && Same(v, w)
    ensures Norm(v) == Norm(w)
    decreases v
  {
    hide Lookup, Keys, Sort, Sorted, NormFields, NormItems;
    match v {
      case Arr(items) =>
        forall i | 0 <= i < |items|
          ensures NormItems(items)[i] == NormItems(w.items)[i]
        {
          SameMeansNormEqual(items[i], w.items[i]);
        }
        assert NormItems(items) == NormItems(w.items);
      case Obj(fields) =>
        SameSortedKeys(fields, w.fields);
        var keys := SortedKeys(fields);
        forall p | 0 <= p < |keys|
          ensures NormFields(v, keys)[p] == NormFields(w, keys)[p]
        {
          assert keys[p] in Keys(fields);
          var i :| 0 <= i < |fields| && Keys(fields)[i] == keys[p];
          LookupOwnKey(fields, i);
          assert SameMember(fields[i], w.fields);
          var j :| 0 <= j < |w.fields| && w.fields[j].key == keys[p] && Same(fields[i].value, w.fields[j].value);
          LookupOwnKey(w.fields, j);
          SameMeansNormEqual(fields[i].value, w.fields[j].value);
        }
        assert NormFields(v, keys) == NormFields(w, keys);
      case _ =>
    }
  }

  /**
   Two documents have the same canonical text exactly when they are the same
   document up to the order of members.
   */
  lemma CanonicalEqualIffSame(v: Json, w: Json)
    requires WellFormed(v) && WellFormed(w)
    ensures Canonical(v) == Canonical(w) <==> Same(v, w)
  {
    hide Canonical, Norm, Same, Print, WellFormed;
    CanonicalIsPrint(v);
    CanonicalIsPrint(w);
    if Canonical(v) == Canonical(w) {
      PrintInjective(Norm(v), Norm(w));
      NormEqualMeansSame(v, w);
    }
    if Same(v, w) {
      SameMeansNormEqual(v, w);
    }
  }

  lemma {:induction false} SameAsNorm(v: Json)
    requires WellFormed(v)
    ensures Same(v, Norm(v))
  {
    hide Lookup, Keys, Sort, Sorted, NormFields, NormItems;
    match v {
      case Arr(items) =>
        forall i | 0 <= i < |items|
          ensures Same(items[i], NormItems(items)[i])
        {
          SameAsNorm(items[i]);
        }
      case Obj(fields) =>
        var keys := SortedKeys(fields);
        var sorted := NormFields(v, keys);
        assert |fields| == |multiset(keys)|;
        forall i | 0 <= i < |fields|
          ensures SameMember(fields[i], sorted)
        {
          LookupOwnKey(fields, i);
          assert fields[i].key in multiset(keys);
          var p :| 0 <= p < |keys| && keys[p] == fields[i].key;
          SameAsNorm(fields[i].value);
          assert sorted[p].key == fields[i].key && Same(fields[i].value, sorted[p].value);
        }
      case _ =>
    }
  }

  /** Reading a canonical text gives the document it was made from, with members in key order. */
  lemma ParseCanonical(v: Json, rest: string)
    requires WellFormed(v) && EndsNumber(rest)
    ensures ParseValue(Canonical(v) + rest) == Done(Norm(v), rest) && Same(v, Norm(v))
  {
    hide Canonical, Norm, Same, Print, ParseValue, WellFormed;
    CanonicalIsPrint(v);
    ParsePrint(Norm(v), rest);
    SameAsNorm(v);
  }
}
