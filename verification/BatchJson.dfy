/** The published text as a JSON document (sections 4, 5 and 7 of RFC 8259). */
module BatchJson {
  import opened Decimal
  import opened Options
  import opened Batcher

  datatype Json = JString(chars: string) | JArray(elements: seq<Json>) | JObject(members: seq<Member>)
  datatype Member = Member(name: string, value: Json)

  /** Characters a JSON string may hold without an escape. */
  predicate Unescaped(c: char) {
    c >= ' ' && c != '"' && c != '\\'
  }

  predicate PlainString(s: string) {
    forall c :: c in s ==> Unescaped(c)
  }

  /** All strings of the value are written without escapes. */
  ghost predicate Plain(j: Json)
    decreases j
  {
    match j
    case JString(s) => PlainString(s)
    case JArray(es) => forall e :: e in es ==> Plain(e)
    case JObject(ms) => forall m :: m in ms ==> PlainString(m.name) && Plain(m.value)
  }

  /** The text of a value, written without white space. */
  function Text(j: Json): string
    decreases j, 0
  {
    match j
    case JString(s) => "\"" + s + "\""
    case JArray(es) => "[" + ElementsText(es) + "]"
    case JObject(ms) => "{" + MembersText(ms) + "}"
  }

  function ElementsText(es: seq<Json>): string
    decreases es, 0
  {
    if es == [] then "" else if |es| == 1 then Text(es[0]) else Text(es[0]) + "," + ElementsText(es[1..])
  }

  function MembersText(ms: seq<Member>): string
    decreases ms, 0
  {
    if ms == [] then ""
    else if |ms| == 1 then MemberText(ms[0])
    else MemberText(ms[0]) + "," + MembersText(ms[1..])
  }

  function MemberText(m: Member): string
    decreases m, 0
  {
    "\"" + m.name + "\":" + Text(m.value)
  }

  function ItemJson(i: Item): Json {
    JObject([Member("key", JString(i.key)), Member("value", JString(IntText(i.value)))])
  }

  function ItemsJson(items: seq<Item>): seq<Json> {
    seq(|items|, k requires 0 <= k < |items| => ItemJson(items[k]))
  }

  function BatchJson(items: seq<Item>): Json {
    JObject([Member("values", JArray(ItemsJson(items)))])
  }

  lemma ItemIsJson(i: Item)
    requires PlainString(i.key)
    ensures Text(ItemJson(i)) == ItemText(i) && Plain(ItemJson(i))
  {
    var v := IntText(i.value);
    var ms := ItemJson(i).members;
    assert ms[1..] == [ms[1]] && MembersText([ms[1]]) == MemberText(ms[1]);
    assert MembersText(ms) == MemberText(ms[0]) + "," + MemberText(ms[1]);
    assert MemberText(ms[0]) == "\"key\":\"" + i.key + "\"";
    assert MemberText(ms[1]) == "\"value\":\"" + v + "\"";
    assert Text(ItemJson(i)) == "{" + (MemberText(ms[0]) + "," + MemberText(ms[1])) + "}";
    Pieces(i.key, v);
    assert PlainString("key") && PlainString("value") && PlainString(v);
  }

  lemma Pieces(k: string, v: string)
    ensures "{" + (("\"key\":\"" + k + "\"") + "," + ("\"value\":\"" + v + "\"")) + "}"
      == OPEN + k + MIDDLE + v + CLOSE
  {
    var l := "{" + (("\"key\":\"" + k + "\"") + "," + ("\"value\":\"" + v + "\"")) + "}";
    assert l == ("{" + "\"key\":\"") + k + ("\"" + "," + "\"value\":\"") + v + ("\"" + "}");
    assert "{" + "\"key\":\"" == OPEN && "\"" + "," + "\"value\":\"" == MIDDLE && "\"" + "}" == CLOSE;
  }

  lemma {:induction false} ItemsAreJson(items: seq<Item>)
    requires forall i :: i in items ==> PlainString(i.key)
    ensures ElementsText(ItemsJson(items)) == ItemsText(items)
    ensures forall e :: e in ItemsJson(items) ==> Plain(e)
    decreases |items|
  {
    if items != [] {
      ItemIsJson(items[0]);
      assert ItemsJson(items)[1..] == ItemsJson(items[1..]);
      ItemsAreJson(items[1..]);
      assert ItemsJson(items) == [ItemJson(items[0])] + ItemsJson(items[1..]);
    }
  }

  /** When no key needs an escape, what is published is the text of a JSON object whose one
      member is the array of the batch's key/value objects. */
  lemma PayloadIsJson(items: seq<Item>)
    requires forall i :: i in items ==> PlainString(i.key)
    ensures CString(BatchText(items)) == Text(BatchJson(items))
    ensures Plain(BatchJson(items))
  {
    ItemsAreJson(items);
    TextHasNoNul(items);
    CStringFacts(BatchText(items));
    BatchIsObject(items);
    var m := BatchJson(items).members[0];
    assert PlainString("values");
    assert Plain(m.value);
    assert BatchJson(items).members == [m];
  }

  lemma TextHasNoNul(items: seq<Item>)
    requires forall i :: i in items ==> PlainString(i.key)
    ensures '\0' !in BatchText(items)
  {
    assert AllClean(items);
    ItemsTextHasNoNul(items);
    assert '\0' !in HEAD && '\0' !in TAIL;
  }

  lemma BatchIsObject(items: seq<Item>)
    ensures Text(BatchJson(items)) == HEAD + ElementsText(ItemsJson(items)) + TAIL
  {
    var m := BatchJson(items).members;
    assert MembersText(m) == MemberText(m[0]);
    assert MemberText(m[0]) == "\"" + "values" + "\":" + Text(m[0].value);
    assert "\"" + "values" + "\":" == "\"values\":";
    Wrap(ElementsText(ItemsJson(items)));
  }

  lemma Wrap(body: string)
    ensures "{" + ("\"values\":" + ("[" + body + "]")) + "}" == HEAD + body + TAIL
  {
    assert "{" + "\"values\":" + "[" == HEAD && "]" + "}" == TAIL;
  }
}
