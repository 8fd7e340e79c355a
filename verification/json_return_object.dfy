/** The JSON object AJAX requests answer with: a success flag fixed at
    construction and a map of named JSON values that `put` fills in. */
module JsonReturnObject {
  import opened Numbers

  /** The JSON values `put` stores: the three the typed overloads create, and
      any other node handed to the generic overload (opaque here). */
  datatype JsonNode = BooleanNode(b: bool) | IntNode(i: Int32) | TextNode(text: string) | OtherNode(tag: nat)

  datatype JsonReturnObject = JsonReturnObject(success: bool, content: map<string, JsonNode>)

  /** The constructor: the given success flag, no content. */
  function New(success: bool): (r: JsonReturnObject)
    ensures r.success == success
    ensures |r.content| == 0
  {
    JsonReturnObject(success, map[])
  }

  /** `put(key, JsonNode)`: stores the value under the key, overwriting an
      earlier one, and returns the (same) object so that calls chain. */
  function Put(o: JsonReturnObject, key: string, value: JsonNode): (r: JsonReturnObject)
    ensures r.success == o.success
    ensures key in r.content && r.content[key] == value
    ensures r.content.Keys == o.content.Keys + {key}
    ensures forall k :: k in o.content && k != key ==> r.content[k] == o.content[k]
  {
    o.(content := o.content[key := value])
  }

  /** `put(key, boolean)`. */
  function PutBoolean(o: JsonReturnObject, key: string, value: bool): (r: JsonReturnObject)
    ensures key in r.content && r.content[key] == BooleanNode(value)
    ensures r.success == o.success && r.content - {key} == o.content - {key}
  {
    Put(o, key, BooleanNode(value))
  }

  /** `put(key, int)`. */
  function PutInt(o: JsonReturnObject, key: string, value: Int32): (r: JsonReturnObject)
    ensures key in r.content && r.content[key] == IntNode(value)
    ensures r.success == o.success && r.content - {key} == o.content - {key}
  {
    Put(o, key, IntNode(value))
  }

  /** `put(key, String)`. */
  function PutString(o: JsonReturnObject, key: string, value: string): (r: JsonReturnObject)
    ensures key in r.content && r.content[key] == TextNode(value)
    ensures r.success == o.success && r.content - {key} == o.content - {key}
  {
    Put(o, key, TextNode(value))
  }

  /** A later `put` under the same key wins. */
  lemma PutOverwrites(o: JsonReturnObject, key: string, first: JsonNode, second: JsonNode)
    ensures Put(Put(o, key, first), key, second) == Put(o, key, second)
  {
  }

  /** `put`s under different keys can be chained in either order. */
  lemma PutsUnderDifferentKeysCommute(o: JsonReturnObject, k1: string, v1: JsonNode, k2: string, v2: JsonNode)
    requires k1 != k2
    ensures Put(Put(o, k1, v1), k2, v2) == Put(Put(o, k2, v2), k1, v1)
  {
  }

  /** However many `put`s are chained, the success flag is the constructor's. */
  lemma {:induction false} ChainedPutsKeepSuccess(success: bool, entries: seq<(string, JsonNode)>)
    ensures PutAll(New(success), entries).success == success
    ensures |entries| > 0 ==> PutAll(New(success), entries).content[entries[|entries| - 1].0] == entries[|entries| - 1].1
    decreases |entries|
  {
    if |entries| > 0 {
      ChainedPutsKeepSuccess(success, entries[..|entries| - 1]);
    }
  }

  /** A chain of `put` calls, first entry first. */
  function PutAll(o: JsonReturnObject, entries: seq<(string, JsonNode)>): JsonReturnObject
    decreases |entries|
  {
    if |entries| == 0 then o else Put(PutAll(o, entries[..|entries| - 1]), entries[|entries| - 1].0, entries[|entries| - 1].1)
  }
}
