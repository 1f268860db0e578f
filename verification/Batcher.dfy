/** The MQTT value batcher: values are appended to one text buffer until it is sent. */
module Batcher {
  import opened Decimal
  import opened Options

  datatype Item = Item(key: string, value: int)

  const HEAD := "{\"values\":["
  const TAIL := "]}"
  const OPEN := "{\"key\":\""
  const MIDDLE := "\",\"value\":\""
  const CLOSE := "\"}"

  function ItemText(i: Item): string {
    OPEN + i.key + MIDDLE + IntText(i.value) + CLOSE
  }

  function ItemsText(items: seq<Item>): string {
    if items == [] then ""
    else if |items| == 1 then ItemText(items[0])
    else ItemText(items[0]) + "," + ItemsText(items[1..])
  }

  function BatchText(items: seq<Item>): string {
    HEAD + ItemsText(items) + TAIL
  }

  /** The characters a C string function sees: those before the first NUL. */
  function CString(s: string): string {
    if s == "" || s[0] == '\0' then "" else [s[0]] + CString(s[1..])
  }

  // ---- reading a payload back ----

  /** Splits at the first quote. */
  function UpToQuote(s: string): string {
    if s == "" || s[0] == '"' then "" else [s[0]] + UpToQuote(s[1..])
  }

  function Skip(prefix: string, s: string): Option<string> {
    if prefix <= s then Some(s[|prefix|..]) else None
  }

  /** A field after its opening text: the characters up to the next quote, and the rest. */
  function ReadField(open: string, s: string): (r: Option<(string, string)>)
    ensures r.Some? ==> |r.value.1| + |open| <= |s|
  {
    var a := Skip(open, s);
    if a == None then None else
    UpToQuoteIsPrefix(a.value);
    var field := UpToQuote(a.value);
    Some((field, a.value[|field|..]))
  }

  function ReadItem(s: string): (r: Option<(Item, string)>)
    ensures r.Some? ==> |r.value.1| < |s|
  {
    var key := ReadField(OPEN, s);
    if key == None then None else
    var value := ReadField(MIDDLE, key.value.1);
    if value == None then None else
    var rest := Skip(CLOSE, value.value.1);
    var number := ReadInt(value.value.0);
    if rest == None || number == None then None
    else Some((Item(key.value.0, number.value), rest.value))
  }

  /** At least one item, then the tail. */
  function ReadItems(s: string): Option<seq<Item>>
    decreases |s|
  {
    var r := ReadItem(s);
    if r == None then None
    else if r.value.1 == TAIL then Some([r.value.0])
    else if "," <= r.value.1 then
      var more := ReadItems(r.value.1[1..]);
      if more == None then None else Some([r.value.0] + more.value)
    else None
  }

  function Decode(payload: string): Option<seq<Item>> {
    var body := Skip(HEAD, payload);
    if body == None then None
    else if body.value == TAIL then Some([])
    else ReadItems(body.value)
  }

  lemma UpToQuoteIsPrefix(s: string)
    ensures UpToQuote(s) <= s
    ensures '"' !in UpToQuote(s)
  {
  }

  lemma {:induction false} UpToQuoteStops(a: string, b: string)
    requires '"' !in a && b != "" && b[0] == '"'
    ensures UpToQuote(a + b) == a
  {
    if a == "" {
      assert a + b == b;
    } else {
      assert (a + b)[0] == a[0] && (a + b)[1..] == a[1..] + b;
      UpToQuoteStops(a[1..], b);
    }
  }

  lemma SkipJoins(prefix: string, s: string)
    ensures Skip(prefix, prefix + s) == Some(s)
  {
    assert (prefix + s)[|prefix|..] == s;
  }

  predicate Clean(key: string) { '"' !in key && '\0' !in key }

  predicate AllClean(items: seq<Item>) { forall i :: i in items ==> Clean(i.key) }

  lemma ReadFieldBack(open: string, field: string, rest: string)
    requires '"' !in field && rest != "" && rest[0] == '"'
    ensures ReadField(open, open + (field + rest)) == Some((field, rest))
  {
    SkipJoins(open, field + rest);
    UpToQuoteStops(field, rest);
    assert (field + rest)[|field|..] == rest;
  }

  lemma Regroup(a: string, b: string, c: string, d: string, e: string, f: string)
    ensures a + b + c + d + e + f == a + (b + (c + (d + (e + f))))
  {
  }

  lemma ReadItemBack(i: Item, rest: string)
    requires '"' !in i.key
    ensures ReadItem(ItemText(i) + rest) == Some((i, rest))
  {
    var v := IntText(i.value);
    var d := CLOSE + rest;
    var b := MIDDLE + (v + d);
    Regroup(OPEN, i.key, MIDDLE, v, CLOSE, rest);
    assert d[0] == '"' && b[0] == '"';
    ReadFieldBack(OPEN, i.key, b);
    ReadFieldBack(MIDDLE, v, d);
    SkipJoins(CLOSE, rest);
    IntTextReadsBack(i.value);
  }

  lemma HeadAndRest(items: seq<Item>)
    requires items != []
    ensures items == [items[0]] + items[1..]
    ensures |items| == 1 ==> items == [items[0]]
  {
  }

  lemma ReadItemsUnfolds(s: string, i: Item, rest: string)
    requires ReadItem(s) == Some((i, rest))
    ensures rest == TAIL ==> ReadItems(s) == Some([i])
    ensures rest != TAIL && "," <= rest && ReadItems(rest[1..]).Some?
      ==> ReadItems(s) == Some([i] + ReadItems(rest[1..]).value)
  {
  }

  lemma ReadLastItem(i: Item)
    requires '"' !in i.key
    ensures ReadItems(ItemText(i) + TAIL) == Some([i])
  {
    ReadItemBack(i, TAIL);
    ReadItemsUnfolds(ItemText(i) + TAIL, i, TAIL);
  }

  lemma ReadFirstItem(i: Item, more: string, items: seq<Item>)
    requires '"' !in i.key && ReadItems(more) == Some(items)
    ensures ReadItems(ItemText(i) + ("," + more)) == Some([i] + items)
  {
    var rest := "," + more;
    assert rest[1..] == more && rest[0] == ',' && TAIL[0] == ']';
    ReadItemBack(i, rest);
    ReadItemsUnfolds(ItemText(i) + rest, i, rest);
  }

  lemma {:induction false} ReadItemsBack(items: seq<Item>)
    requires items != [] && forall i :: i in items ==> '"' !in i.key
    ensures ReadItems(ItemsText(items) + TAIL) == Some(items)
    decreases |items|
  {
    HeadAndRest(items);
    if |items| == 1 {
      ReadLastItem(items[0]);
    } else {
      ReadItemsBack(items[1..]);
      JoinComma(ItemText(items[0]), ItemsText(items[1..]), TAIL);
      ReadFirstItem(items[0], ItemsText(items[1..]) + TAIL, items[1..]);
    }
  }

  lemma JoinComma(a: string, b: string, c: string)
    ensures a + "," + b + c == a + ("," + (b + c))
  {
  }

  // ---- NUL characters ----

  lemma {:induction false} CStringFacts(s: string)
    ensures '\0' !in CString(s)
    ensures '\0' !in s ==> CString(s) == s
  {
    if s != "" {
      CStringFacts(s[1..]);
      assert s == [s[0]] + s[1..];
    }
  }

  lemma {:induction false} ItemsTextHasNoNul(items: seq<Item>)
    requires AllClean(items)
    ensures '\0' !in ItemsText(items)
    decreases |items|
  {
    if items != [] {
      ItemTextHasNoNul(items[0]);
      ItemsTextHasNoNul(items[1..]);
    }
  }

  lemma ItemTextHasNoNul(i: Item)
    requires Clean(i.key)
    ensures '\0' !in ItemText(i)
  {
    assert '\0' !in IntText(i.value);
    assert '\0' !in OPEN && '\0' !in MIDDLE && '\0' !in CLOSE;
  }

  // ---- the round trip, exactly ----

  lemma ReadItemKeyIsClean(s: string)
    requires ReadItem(s).Some? && '\0' !in s
    ensures Clean(ReadItem(s).value.0.key)
    ensures forall c :: c in ReadItem(s).value.1 ==> c in s
  {
    var key := ReadField(OPEN, s).value;
    FieldIsPart(OPEN, s);
    FieldIsPart(MIDDLE, key.1);
  }

  lemma FieldIsPart(open: string, s: string)
    requires ReadField(open, s).Some?
    ensures var r := ReadField(open, s).value;
      '"' !in r.0 && (forall c :: c in r.0 ==> c in s) && (forall c :: c in r.1 ==> c in s)
  {
    var a := Skip(open, s).value;
    UpToQuoteIsPrefix(a);
    assert forall c :: c in UpToQuote(a) ==> c in a;
    assert forall c :: c in a ==> c in s;
  }

  lemma {:induction false} ReadItemsKeysAreClean(s: string)
    requires ReadItems(s).Some? && '\0' !in s
    ensures AllClean(ReadItems(s).value)
    decreases |s|
  {
    ReadItemKeyIsClean(s);
    var rest := ReadItem(s).value.1;
    if rest != TAIL {
      ReadItemsKeysAreClean(rest[1..]);
    }
  }

  /** A published payload decodes to the batch it was made from if and only if no key of the
      batch holds a quote or a NUL character. */
  lemma PayloadRoundTrip(items: seq<Item>)
    ensures Decode(CString(BatchText(items))) == Some(items) <==> AllClean(items)
  {
    hide AllClean, Decode, CString, BatchText;
    if AllClean(items) {
      CleanPayloadDecodes(items);
    } else if Decode(CString(BatchText(items))) == Some(items) {
      CStringFacts(BatchText(items));
      DecodedIsClean(CString(BatchText(items)));
    }
  }

  lemma CleanPayloadDecodes(items: seq<Item>)
    requires AllClean(items)
    ensures Decode(CString(BatchText(items))) == Some(items)
  {
    ItemsTextHasNoNul(items);
    assert '\0' !in HEAD && '\0' !in TAIL;
    CStringFacts(BatchText(items));
    hide CString;
    assert BatchText(items) == HEAD + (ItemsText(items) + TAIL);
    SkipJoins(HEAD, ItemsText(items) + TAIL);
    if items == [] {
      assert ItemsText(items) + TAIL == TAIL;
    } else {
      ReadItemsBack(items);
      ReadItemsBackIsNotTail(items);
    }
  }

  lemma DecodedIsClean(text: string)
    requires Decode(text).Some? && '\0' !in text
    ensures AllClean(Decode(text).value)
  {
    var body := Skip(HEAD, text).value;
    assert forall c :: c in body ==> c in text;
    if body != TAIL {
      ReadItemsKeysAreClean(body);
    }
  }

  /** The text of a batch of two, letter by letter. */
  lemma PayloadOfTwo(a: Item, b: Item)
    ensures BatchText([]) == "{\"values\":[]}"
    ensures BatchText([a, b]) == "{\"values\":[" + (
      ("{\"key\":\"" + a.key + "\",\"value\":\"" + IntText(a.value) + "\"}") + "," +
      ("{\"key\":\"" + b.key + "\",\"value\":\"" + IntText(b.value) + "\"}")) + "]}"
  {
    assert [a, b][1..] == [b];
    assert ItemsText([a, b]) == ItemText(a) + "," + ItemText(b);
    assert HEAD + "" + TAIL == "{\"values\":[]}";
  }

  lemma ReadItemsBackIsNotTail(items: seq<Item>)
    requires items != []
    ensures ItemsText(items) + TAIL != TAIL
  {
    assert |ItemsText(items)| > 0;
  }

  /** Payload text determines its batch. */
  lemma PayloadsAreDistinct(a: seq<Item>, b: seq<Item>)
    requires AllClean(a) && AllClean(b) && CString(BatchText(a)) == CString(BatchText(b))
    ensures a == b
  {
    PayloadRoundTrip(a);
    PayloadRoundTrip(b);
  }

  /** With a quote in a key the text no longer determines the batch: any two items have the
      same payload as one item whose key spells out the text between them. */
  lemma QuotedKeysCollide(a: Item, b: Item)
    ensures var forged := Item(a.key + MIDDLE + IntText(a.value) + CLOSE + "," + OPEN + b.key, b.value);
      BatchText([forged]) == BatchText([a, b]) && [forged] != [a, b] && !AllClean([forged])
  {
    var v, w := IntText(a.value), IntText(b.value);
    var key := a.key + MIDDLE + v + CLOSE + "," + OPEN + b.key;
    var forged := Item(key, b.value);
    assert [a, b][1..] == [b];
    Forge(OPEN, a.key, MIDDLE, v, CLOSE, b.key, w);
    assert ItemsText([a, b]) == ItemText(a) + "," + ItemText(b);
    assert '"' in MIDDLE;
    assert '"' in key;
    assert forged in [forged];
    assert |[forged]| != |[a, b]|;
  }

  lemma Forge(o: string, k: string, m: string, v: string, c: string, l: string, w: string)
    ensures o + (k + m + v + c + "," + o + l) + m + w + c == (o + k + m + v + c) + "," + (o + l + m + w + c)
  {
  }

  // ---- runs ----

  function Concat(batches: seq<seq<Item>>): seq<Item> {
    if batches == [] then [] else Concat(batches[..|batches| - 1]) + batches[|batches| - 1]
  }

  /** Everything a subscriber decodes from the published payloads, in order. */
  function DecodeAll(payloads: seq<string>): Option<seq<Item>> {
    if payloads == [] then Some([])
    else
      var before, last := DecodeAll(payloads[..|payloads| - 1]), Decode(payloads[|payloads| - 1]);
      if before == None || last == None then None else Some(before.value + last.value)
  }

  function Payloads(batches: seq<seq<Item>>): seq<string> {
    seq(|batches|, i requires 0 <= i < |batches| => CString(BatchText(batches[i])))
  }

  lemma {:induction false} DecodeAllPayloads(batches: seq<seq<Item>>)
    requires AllClean(Concat(batches))
    ensures DecodeAll(Payloads(batches)) == Some(Concat(batches))
    decreases |batches|
  {
    if batches != [] {
      var n := |batches| - 1;
      assert Payloads(batches)[..n] == Payloads(batches[..n]);
      DecodeAllPayloads(batches[..n]);
      PayloadRoundTrip(batches[n]);
    }
  }

  datatype Request = Add(key: string, value: int) | Flush

  /** All values added in the course of a run. */
  function AddedBy(rs: seq<Request>): seq<Item> {
    if rs == [] then []
    else AddedBy(rs[..|rs| - 1]) + match rs[|rs| - 1] { case Add(k, v) => [Item(k, v)] case Flush => [] }
  }

  /** The globals buff and message_count of the client, the payloads handed to the MQTT
      client so far, and (ghost) the batches they came from and the values still waiting. */
  class Client {
    var buff: string
    var messageCount: int
    var published: seq<string>
    ghost var batches: seq<seq<Item>>
    ghost var pending: seq<Item>

    ghost predicate Valid()
      reads this
    {
      && buff == HEAD + ItemsText(pending)
      && messageCount == |pending|
      && published == Payloads(batches)
    }

    /** Everything ever added, sent or not. */
    ghost function History(): seq<Item>
      reads this
    {
      Concat(batches) + pending
    }

    constructor ()
      ensures Valid() && batches == [] && pending == []
    {
      buff := HEAD;
      messageCount := 0;
      published := [];
      batches := [];
      pending := [];
    }

    method AddValue(key: string, value: int)
      requires Valid()
      modifies this
      ensures Valid() && published == old(published) && batches == old(batches)
      ensures pending == old(pending) + [Item(key, value)]
      ensures History() == old(History()) + [Item(key, value)]
    {
      BufferAppends(pending, Item(key, value));
      if messageCount > 0 {
        buff := buff + ",";
      }
      buff := buff + OPEN;
      buff := buff + key;
      buff := buff + MIDDLE;
      buff := buff + IntText(value);
      buff := buff + CLOSE;
      messageCount := messageCount + 1;
      pending := pending + [Item(key, value)];
      ConcatAppends(Concat(batches), old(pending), Item(key, value));
    }

    method Send()
      requires Valid()
      modifies this
      ensures Valid() && pending == [] && batches == old(batches) + [old(pending)]
      ensures published == old(published) + [CString(BatchText(old(pending)))]
      ensures History() == old(History())
    {
      buff := buff + TAIL;
      published := published + [CString(buff)];
      buff := HEAD;
      messageCount := 0;
      batches := batches + [pending];
      assert batches[..|batches| - 1] == old(batches);
      pending := [];
    }

    /** Any run of additions and sends: nothing added is lost, repeated or reordered, and
        when no key holds a quote or NUL the published text alone gives back all of it that
        has been sent. */
    method Run(rs: seq<Request>)
      requires Valid() && batches == [] && pending == []
      modifies this
      ensures Valid() && History() == AddedBy(rs)
      ensures AllClean(AddedBy(rs)) ==>
        DecodeAll(published).Some? && DecodeAll(published).value + pending == AddedBy(rs)
    {
      hide DecodeAll, Decode, ItemsText, Concat, Payloads, AddedBy, AllClean;
      NothingAdded(rs);
      var i := 0;
      while i < |rs|
        invariant 0 <= i <= |rs| && Valid() && History() == AddedBy(rs[..i])
      {
        AddedByStep(rs, i);
        match rs[i] {
          case Add(k, v) => AddValue(k, v);
          case Flush => Send();
        }
        i := i + 1;
      }
      assert rs[..|rs|] == rs;
      if AllClean(AddedBy(rs)) {
        SentDecodes(batches, pending);
      }
    }
  }

  lemma SentDecodes(batches: seq<seq<Item>>, pending: seq<Item>)
    requires AllClean(Concat(batches) + pending)
    ensures var got := DecodeAll(Payloads(batches));
      got.Some? && got.value + pending == Concat(batches) + pending
  {
    hide DecodeAll, Concat, Payloads;
    assert forall it :: it in Concat(batches) ==> it in Concat(batches) + pending;
    DecodeAllPayloads(batches);
  }

  lemma NothingAdded(rs: seq<Request>)
    ensures AddedBy(rs[..0]) == [] && Concat([]) == []
  {
  }

  lemma AddedByStep(rs: seq<Request>, i: nat)
    requires i < |rs|
    ensures AddedBy(rs[..i + 1]) == match rs[i] {
      case Add(k, v) => AddedBy(rs[..i]) + [Item(k, v)]
      case Flush => AddedBy(rs[..i])
    }
  {
    assert rs[..i + 1][..i] == rs[..i];
  }

  lemma ConcatAppends(sent: seq<Item>, pending: seq<Item>, i: Item)
    ensures sent + (pending + [i]) == sent + pending + [i]
  {
  }

  /** The pieces addValue appends, one by one, add one item to the text. */
  lemma BufferAppends(items: seq<Item>, i: Item)
    ensures var text := HEAD + ItemsText(items);
      (if items == [] then text else text + ",") + OPEN + i.key + MIDDLE + IntText(i.value) + CLOSE
      == HEAD + ItemsText(items + [i])
  {
    ItemsTextAppends(items, i);
    Chain(HEAD, ItemsText(items), OPEN, i.key, MIDDLE, IntText(i.value), CLOSE);
  }

  lemma Chain(h: string, t: string, b: string, c: string, d: string, e: string, f: string)
    ensures h + t + "," + b + c + d + e + f == h + (t + "," + (b + c + d + e + f))
    ensures h + t + b + c + d + e + f == h + (t + "" + (b + c + d + e + f))
  {
  }

  lemma {:induction false} ItemsTextAppends(items: seq<Item>, i: Item)
    ensures ItemsText(items + [i]) == ItemsText(items) + (if items == [] then "" else ",") + ItemText(i)
    decreases |items|
  {
    if |items| == 1 {
      assert (items + [i])[1..] == [i];
    } else if |items| > 1 {
      assert (items + [i])[1..] == items[1..] + [i];
      ItemsTextAppends(items[1..], i);
      AppendGroups(ItemText(items[0]), ItemsText(items[1..]), ItemText(i));
    }
  }

  lemma AppendGroups(a: string, b: string, c: string)
    ensures a + "," + (b + "," + c) == a + "," + b + "," + c
  {
  }
}
