/** ABI words and arrays as the staking reader decodes them (mesh/staking.py). */
module Abi {
  import opened Wrappers
  import opened GF256

  const WORD := 32

  /** data[i:j], which Python cuts off at the end of the data. */
  function Slice(data: seq<Byte>, i: nat, j: nat): seq<Byte>
    requires i <= j
  {
    if |data| <= i then [] else if |data| < j then data[i..] else data[i..j]
  }

  /** int.from_bytes(b, "big"). */
  function FromBytes(b: seq<Byte>): nat {
    if b == [] then 0 else 256 * FromBytes(b[..|b| - 1]) + b[|b| - 1]
  }

  function ToBytes(n: nat, width: nat): (b: seq<Byte>)
    ensures |b| == width
  {
    if width == 0 then [] else ToBytes(n / 256, width - 1) + [n % 256]
  }

  function Power256(k: nat): nat {
    if k == 0 then 1 else 256 * Power256(k - 1)
  }

  lemma {:induction false} BytesRoundTrip(n: nat, width: nat)
    requires n < Power256(width)
    ensures FromBytes(ToBytes(n, width)) == n
  {
    if width > 0 {
      BytesRoundTrip(n / 256, width - 1);
      assert ToBytes(n, width)[..width - 1] == ToBytes(n / 256, width - 1);
    }
  }

  lemma {:induction false} BytesBound(b: seq<Byte>)
    ensures FromBytes(b) < Power256(|b|)
  {
    if b != [] {
      BytesBound(b[..|b| - 1]);
    }
  }

  function Items(data: seq<Byte>, start: nat, count: nat): (items: seq<seq<Byte>>)
    requires start + WORD * count <= |data|
    ensures |items| == count
    ensures forall i :: 0 <= i < count ==> items[i] == data[start + WORD * i..start + WORD * (i + 1)]
  {
    if count == 0 then []
    else Items(data, start, count - 1) + [data[start + WORD * (count - 1)..start + WORD * count]]
  }

  /** decode_bytes32_array; None where it raises. */
  function DecodeArray(data: seq<Byte>): Option<seq<seq<Byte>>> {
    if |data| % WORD != 0 then None
    else
      var offset := FromBytes(Slice(data, 0, WORD));
      var count := FromBytes(Slice(data, offset, offset + WORD));
      var start := offset + WORD;
      if start + WORD * count > |data| then None else Some(Items(data, start, count))
  }

  function Concat(items: seq<seq<Byte>>): seq<Byte> {
    if items == [] then [] else Concat(items[..|items| - 1]) + items[|items| - 1]
  }

  /** What a contract returns for an array of 32-byte items. */
  function EncodeArray(items: seq<seq<Byte>>): seq<Byte> {
    ToBytes(WORD, WORD) + ToBytes(|items|, WORD) + Concat(items)
  }

  predicate AreWords(items: seq<seq<Byte>>) {
    forall i :: 0 <= i < |items| ==> |items[i]| == WORD
  }

  lemma {:induction false} ConcatItems(items: seq<seq<Byte>>)
    requires AreWords(items)
    ensures |Concat(items)| == WORD * |items|
    ensures forall i :: 0 <= i < |items| ==> Concat(items)[WORD * i..WORD * (i + 1)] == items[i]
  {
    if items != [] {
      var n := |items| - 1;
      ConcatItems(items[..n]);
      var c := Concat(items);
      forall i | 0 <= i < |items|
        ensures c[WORD * i..WORD * (i + 1)] == items[i]
      {
        if i < n {
          assert c[..WORD * n] == Concat(items[..n]);
          assert c[WORD * i..WORD * (i + 1)] == c[..WORD * n][WORD * i..WORD * (i + 1)];
        }
      }
    }
  }

  lemma WordFits()
    ensures WORD < Power256(WORD)
  {
    PowerGrows(1, WORD);
    assert Power256(1) == 256 * Power256(0);
  }

  lemma {:induction false} PowerGrows(k: nat, m: nat)
    requires k <= m
    ensures 1 <= Power256(k) <= Power256(m)
    decreases m
  {
    if k < m {
      PowerGrows(k, m - 1);
    } else if k > 0 {
      PowerGrows(k - 1, k - 1);
    }
  }

  /** Decoding undoes encoding, for every array of words that fits a count. */
  lemma ArrayRoundTrip(items: seq<seq<Byte>>)
    requires AreWords(items) && |items| < Power256(WORD)
    ensures DecodeArray(EncodeArray(items)) == Some(items)
  {
    hide Power256, FromBytes, ToBytes, Concat;
    var head, count, body := ToBytes(WORD, WORD), ToBytes(|items|, WORD), Concat(items);
    var data := EncodeArray(items);
    ConcatItems(items);
    WordFits();
    BytesRoundTrip(WORD, WORD);
    BytesRoundTrip(|items|, WORD);
    assert Slice(data, 0, WORD) == head;
    assert Slice(data, WORD, WORD + WORD) == count;
    var start := WORD + WORD;
    assert data[start..] == body;
    forall i | 0 <= i < |items|
      ensures Items(data, start, |items|)[i] == items[i]
    {
      assert data[start + WORD * i..start + WORD * (i + 1)] == data[start..][WORD * i..WORD * (i + 1)];
    }
    assert |data| == WORD * (|items| + 2) && |data| % WORD == 0;
    assert Items(data, start, |items|) == items;
  }

  /** Whatever is decoded consists of whole words that stand one after another in the data. */
  lemma DecodedWords(data: seq<Byte>)
    requires DecodeArray(data).Some?
    ensures AreWords(DecodeArray(data).value)
    ensures var offset := FromBytes(Slice(data, 0, WORD));
      var end := offset + WORD + WORD * |DecodeArray(data).value|;
      offset + WORD <= end <= |data| && data[offset + WORD..end] == Concat(DecodeArray(data).value)
  {
    hide FromBytes, Concat, Items;
    var offset := FromBytes(Slice(data, 0, WORD));
    ItemsConcat(data, offset + WORD, FromBytes(Slice(data, offset, offset + WORD)));
  }

  lemma {:induction false} ItemsConcat(data: seq<Byte>, start: nat, count: nat)
    requires start + WORD * count <= |data|
    ensures Concat(Items(data, start, count)) == data[start..start + WORD * count]
    ensures AreWords(Items(data, start, count))
  {
    if count > 0 {
      ItemsConcat(data, start, count - 1);
      assert Items(data, start, count)[..count - 1] == Items(data, start, count - 1);
    }
  }
}
