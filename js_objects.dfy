/** obj_to_array: turns an object of objects, {"ETHBTC": {...}}, into an
    array of those same objects, each given a `symbol` property holding its
    key. The objects are changed in place, not copied. */
module JsObjects {
  /** A property value: text such as the `symbol` the loop writes, a
      number, or any other JSON value by its JSON text; obj_to_array carries
      all but `symbol` through untouched. */
  datatype Property = Text(s: string) | Number(n: int) | Other(json: string)

  /** A JSON object whose properties can be reassigned. */
  class JsObject {
    var props: map<string, Property>

    constructor(props: map<string, Property>)
      ensures this.props == props
    {
      this.props := props;
    }
  }

  /** One property `key: obj` of the input object, in for-in order. */
  datatype Entry = Entry(key: string, obj: JsObject)

  /** The property values, in order. */
  function Objects(json: seq<Entry>): (objs: seq<JsObject>)
    ensures |objs| == |json| && forall k :: 0 <= k < |json| ==> objs[k] == json[k].obj
  {
    seq(|json|, k requires 0 <= k < |json| => json[k].obj)
  }

  /** The key of the last property whose value is o: the `symbol` the loop
      leaves in o when the same object is the value of several keys. */
  function LastKey(json: seq<Entry>, o: JsObject): string
    requires o in Objects(json)
    decreases |json|
  {
    var last := json[|json| - 1];
    if last.obj == o then last.key
    else
      ObjectsOfPrefix(json);
      LastKey(json[..|json| - 1], o)
  }

  lemma ObjectsOfPrefix(json: seq<Entry>)
    requires |json| > 0
    ensures Objects(json) == Objects(json[..|json| - 1]) + [json[|json| - 1].obj]
  {
  }

  /** obj_to_array(json). */
  method ObjToArray(json: seq<Entry>) returns (output: seq<JsObject>)
    modifies set e | e in json :: e.obj
    ensures output == Objects(json)
    ensures forall e :: e in json ==> e.obj.props == old(e.obj.props)["symbol" := Text(LastKey(json, e.obj))]
  {
    output := [];
    var i := 0;
    while i < |json|
      invariant 0 <= i <= |json|
      invariant output == Objects(json[..i])
      invariant forall k :: 0 <= k < |json| ==>
        json[k].obj.props == (if json[k].obj in Objects(json[..i])
                              then old(json[k].obj.props)["symbol" := Text(LastKey(json[..i], json[k].obj))]
                              else old(json[k].obj.props))
    {
      var key := json[i].key;
      var obj := json[i].obj;
      assert json[..i + 1][..i] == json[..i];
      ObjectsOfPrefix(json[..i + 1]);
      obj.props := obj.props["symbol" := Text(key)];
      output := output + [obj];
      i := i + 1;
    }
    assert json[..i] == json;
  }

  /** When no object is the value of two keys (as in parsed JSON), every
      output object is the value of the key at its position and its symbol
      is that key. */
  lemma {:induction false} LastKeyOfDistinct(json: seq<Entry>, k: nat)
    requires k < |json|
    requires forall a, b :: 0 <= a < b < |json| ==> json[a].obj != json[b].obj
    ensures json[k].obj in Objects(json) && LastKey(json, json[k].obj) == json[k].key
    decreases |json|
  {
    if k < |json| - 1 {
      ObjectsOfPrefix(json);
      LastKeyOfDistinct(json[..|json| - 1], k);
    }
  }
}
