/**
 Values shared by every layer of the search engine: bytes, keys, key/value
 pairs and bucket chains.
 */
module Common {

  datatype Option<+T> = None | Some(value: T)

  type Byte = b: int | 0 <= b < 0x100

  // HTKey_t and DocID_t are both unsigned 64-bit integers.
  type Key = k: int | 0 <= k < 0x1_0000_0000_0000_0000

  // DocPositionOffset_t is an unsigned 32-bit integer.
  type Position = p: int | 0 <= p < 0x1_0000_0000

  datatype KV<+V> = KV(key: Key, value: V)

  // A bucket: the payloads of one chain, from head to tail.
  datatype Chain<+V> = Chain(kvs: seq<KV<V>>)

  type Table<+V> = seq<Chain<V>>

  function Init<T>(s: seq<T>): seq<T>
    requires s != []
  {
    s[..|s| - 1]
  }

  function Last<T>(s: seq<T>): T
    requires s != []
  {
    s[|s| - 1]
  }

  // The characters of an ASCII text as bytes.
  function Chars(s: string): (r: seq<Byte>)
    requires forall i :: 0 <= i < |s| ==> s[i] as int < 0x80
    ensures |r| == |s| && forall i :: 0 <= i < |s| ==> r[i] == s[i] as int
  {
    seq(|s|, i requires 0 <= i < |s| => s[i] as int)
  }

  // The prefix of length i + 1 is the prefix of length i and one more element.
  lemma PrefixSnoc<T>(s: seq<T>, i: nat)
    requires i < |s|
    ensures s[..i + 1] != [] && Init(s[..i + 1]) == s[..i] && Last(s[..i + 1]) == s[i]
  {
    assert Init(s[..i + 1]) == s[..i];
  }

  lemma InitConcat<T>(a: seq<T>, b: seq<T>)
    ensures b == [] ==> a + b == a
    ensures b != [] ==> a + b != [] && Init(a + b) == a + Init(b) && Last(a + b) == Last(b) && |Init(b)| < |b|
  {
  }
}
