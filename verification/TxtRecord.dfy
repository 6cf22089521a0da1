/** The TXT record that announces the service (src/service/bonjour.rs): each property as "key=value"
    behind a length byte, as sections 6.1 and 6.4 of RFC 6763 lay it out. Every character stands
    for one byte. */
module TxtRecord {
  import opened Text

  datatype Property = Property(key: string, value: string)

  datatype TxtError = InvalidKey(key: string) | TooLong(key: string)

  const MAX_ITEM := 255

  /* ----- encoding ----- */

  predicate ValidKey(key: string) {
    '=' !in key && forall i :: 0 <= i < |key| ==> key[i] as int < 128
  }

  function Item(p: Property): string {
    p.key + "=" + p.value
  }

  /** The error a property causes, if any; its key is looked at first. */
  function Fault(p: Property): Option<TxtError> {
    if !ValidKey(p.key) then Some(InvalidKey(p.key))
    else if |Item(p)| > MAX_ITEM then Some(TooLong(p.key))
    else None
  }

  function Encoded(properties: seq<Property>): Result<string, TxtError> {
    if properties == [] then Ok("")
    else if Fault(properties[0]).Some? then Err(Fault(properties[0]).value)
    else
      match Encoded(properties[1..])
      case Ok(rest) => Ok([|Item(properties[0])| as char] + Item(properties[0]) + rest)
      case Err(e) => Err(e)
  }

  method TxtRecordBytes(properties: seq<Property>) returns (r: Result<string, TxtError>)
    ensures r == Encoded(properties)
  {
    var out := "";
    assert properties[0..] == properties;
    assert Encoded(properties).Ok? ==> out + Encoded(properties).value == Encoded(properties).value;
    for n := 0 to |properties|
      invariant match Encoded(properties[n..])
        case Ok(rest) => Encoded(properties) == Ok(out + rest)
        case Err(e) => Encoded(properties) == Err(e)
    {
      var p := properties[n];
      assert properties[n..][0] == p && properties[n..][1..] == properties[n + 1..];
      if !ValidKey(p.key) {
        return Err(InvalidKey(p.key));
      }
      var item := p.key + "=" + p.value;
      if |item| > MAX_ITEM {
        return Err(TooLong(p.key));
      }
      if Encoded(properties[n + 1..]).Ok? {
        Regroup(out, [|item| as char], item, Encoded(properties[n + 1..]).value);
      }
      out := out + [|item| as char];
      out := out + item;
    }
    assert properties[|properties|..] == [] && out + "" == out;
    r := Ok(out);
  }

  /* ----- decoding ----- */

  function CutAtEquals(item: string): (p: Property)
    ensures '=' !in p.key
    ensures '=' in item ==> Item(p) == item
  {
    var n := RunEnd(item, 0, (c: char) => c != '=');
    Property(item[..n], if n < |item| then item[n + 1..] else "")
  }

  /** Reading the items one after another: `None` when a length byte promises more than is left. */
  function Items(data: string): Option<seq<string>>
    decreases |data|
  {
    if data == "" then Some([])
    else
      var size := data[0] as int;
      if |data| <= size then None
      else
        match Items(data[1 + size..])
        case Some(rest) => Some([data[1..1 + size]] + rest)
        case None => None
  }

  function CutAll(items: seq<string>): (r: seq<Property>)
    ensures |r| == |items| && forall i :: 0 <= i < |items| ==> r[i] == CutAtEquals(items[i])
  {
    seq(|items|, i requires 0 <= i < |items| => CutAtEquals(items[i]))
  }

  function Decoded(data: string): Option<seq<Property>> {
    match Items(data)
    case Some(items) => Some(CutAll(items))
    case None => None
  }

  /* ----- when encoding succeeds, and which error it gives ----- */

  /** `n` is the first property at fault. */
  ghost predicate FirstFault(properties: seq<Property>, n: nat) {
    && n < |properties|
    && Fault(properties[n]).Some?
    && forall k :: 0 <= k < n ==> Fault(properties[k]).None?
  }

  lemma {:induction false} EncodingFailsIff(properties: seq<Property>)
    ensures Encoded(properties).Ok? <==> forall k :: 0 <= k < |properties| ==> Fault(properties[k]).None?
    ensures forall n: nat :: FirstFault(properties, n) ==>
              Encoded(properties) == Err(Fault(properties[n]).value)
  {
    if properties != [] {
      var rest := properties[1..];
      EncodingFailsIff(rest);
      assert forall k :: 0 <= k < |rest| ==> rest[k] == properties[k + 1];
      forall n: nat | FirstFault(properties, n) && n > 0
        ensures Encoded(properties) == Err(Fault(properties[n]).value)
      {
        assert FirstFault(rest, n - 1);
      }
    }
  }

  /** In numbers: a list encodes exactly when every key is ASCII without an equals sign and every
      key, sign and value together take at most 255 bytes. */
  lemma EncodesIff(properties: seq<Property>)
    ensures Encoded(properties).Ok? <==> forall k :: 0 <= k < |properties| ==>
      && |properties[k].key| + 1 + |properties[k].value| <= 255
      && forall i :: 0 <= i < |properties[k].key| ==>
           properties[k].key[i] as int < 128 && properties[k].key[i] != '='
  {
    EncodingFailsIff(properties);
    forall k | 0 <= k < |properties|
      ensures Fault(properties[k]).None? <==>
        && |properties[k].key| + 1 + |properties[k].value| <= 255
        && forall i :: 0 <= i < |properties[k].key| ==>
             properties[k].key[i] as int < 128 && properties[k].key[i] != '='
    {
      FaultIff(properties[k]);
    }
  }

  lemma FaultIff(p: Property)
    ensures Fault(p).None? <==>
      && |p.key| + 1 + |p.value| <= 255
      && forall i :: 0 <= i < |p.key| ==> p.key[i] as int < 128 && p.key[i] != '='
  {
    assert |Item(p)| == |p.key| + 1 + |p.value|;
    assert '=' in p.key <==> exists i :: 0 <= i < |p.key| && p.key[i] == '=';
  }

  /** One property on the wire: a byte for its size, then key, equals sign and value. */
  lemma {:induction false} BytesOfOne(p: Property)
    requires Encoded([p]).Ok?
    ensures |p.key| + 1 + |p.value| < 256
    ensures Encoded([p]) == Ok([(|p.key| + 1 + |p.value|) as char] + (p.key + "=" + p.value))
  {
    assert [p][1..] == [] && Encoded([]) == Ok("");
    var front := [|Item(p)| as char] + Item(p);
    assert Encoded([p]) == Ok(front + "") && front + "" == front;
  }

  /* ----- round trips ----- */

  lemma ItemCutsBack(p: Property)
    requires ValidKey(p.key)
    ensures CutAtEquals(Item(p)) == p
  {
    RunEndIs(Item(p), 0, |p.key|, (c: char) => c != '=');
  }

  lemma CutAllSplits(item: string, items: seq<string>)
    ensures CutAll([item] + items) == [CutAtEquals(item)] + CutAll(items)
  {
    var all := [item] + items;
    forall i | 0 <= i < |all|
      ensures CutAll(all)[i] == ([CutAtEquals(item)] + CutAll(items))[i]
    {
      assert i > 0 ==> all[i] == items[i - 1];
    }
  }

  /** Reading one item off the front. */
  lemma ItemsStep(item: string, rest: string)
    requires |item| <= MAX_ITEM
    ensures Items([|item| as char] + item + rest) ==
            match Items(rest)
            case Some(items) => Some([item] + items)
            case None => None
  {
    var data := [|item| as char] + item + rest;
    assert data[1..1 + |item|] == item;
    assert data[1 + |item|..] == rest;
  }

  lemma {:induction false} ItemsReadBack(properties: seq<Property>)
    requires Encoded(properties).Ok?
    ensures Decoded(Encoded(properties).value) == Some(properties)
  {
    if properties != [] {
      var p, rest := properties[0], properties[1..];
      ItemsReadBack(rest);
      ItemCutsBack(p);
      ItemsStep(Item(p), Encoded(rest).value);
      CutAllSplits(Item(p), Items(Encoded(rest).value).value);
      assert properties == [p] + rest;
    }
  }

  lemma EncodingIsInjective(a: seq<Property>, b: seq<Property>)
    requires Encoded(a).Ok? && Encoded(b).Ok?
    ensures Encoded(a) == Encoded(b) ==> a == b
  {
    ItemsReadBack(a);
    ItemsReadBack(b);
  }

  ghost predicate ItemFits(item: string) {
    |item| <= MAX_ITEM && '=' in item && ValidKey(CutAtEquals(item).key)
  }

  /** Data made of whole items of at most 255 bytes, each with an equals sign after an ASCII key. */
  ghost predicate WellFormed(data: string) {
    Items(data).Some? && forall i :: 0 <= i < |Items(data).value| ==> ItemFits(Items(data).value[i])
  }

  lemma ItemsSplit(data: string, size: nat)
    requires Items(data).Some? && data != "" && size == data[0] as int
    ensures 1 + size <= |data|
    ensures Items(data[1 + size..]).Some?
    ensures Items(data).value == [data[1..1 + size]] + Items(data[1 + size..]).value
  {
  }

  lemma Reassembled(data: string, size: nat)
    requires 1 + size <= |data|
    ensures data == [data[0]] + data[1..1 + size] + data[1 + size..]
  {
  }

  lemma ItemsFitSplit(item: string, items: seq<string>)
    requires forall i :: 0 <= i < |[item] + items| ==> ItemFits(([item] + items)[i])
    ensures ItemFits(item)
    ensures forall i :: 0 <= i < |items| ==> ItemFits(items[i])
  {
    assert ([item] + items)[0] == item;
    forall i | 0 <= i < |items|
      ensures ItemFits(items[i])
    {
      assert ([item] + items)[i + 1] == items[i];
    }
  }

  /** On such data the decoder is undone by the encoder, so the two are inverse bijections. */
  lemma {:induction false} EncodeInvertsDecode(data: string)
    requires WellFormed(data)
    ensures Encoded(Decoded(data).value) == Ok(data)
    decreases |data|
  {
    if data != "" {
      var size := data[0] as int;
      ItemsSplit(data, size);
      var item, rest := data[1..1 + size], data[1 + size..];
      ItemsFitSplit(item, Items(rest).value);
      EncodeInvertsDecode(rest);
      CutAllSplits(item, Items(rest).value);
      EncodedSplits(CutAtEquals(item), CutAll(Items(rest).value), rest);
      Reassembled(data, size);
    }
  }

  lemma EncodedSplits(p: Property, rest: seq<Property>, bytes: string)
    requires Fault(p).None? && Encoded(rest) == Ok(bytes)
    ensures Encoded([p] + rest) == Ok([|Item(p)| as char] + Item(p) + bytes)
  {
    assert ([p] + rest)[1..] == rest;
  }

  /** What the encoder produces is well formed. */
  lemma {:induction false} EncodedIsWellFormed(properties: seq<Property>)
    requires Encoded(properties).Ok?
    ensures WellFormed(Encoded(properties).value)
  {
    if properties != [] {
      var p, rest := properties[0], properties[1..];
      EncodedIsWellFormed(rest);
      ItemCutsBack(p);
      ItemsStep(Item(p), Encoded(rest).value);
      assert Item(p)[|p.key|] == '=';
    }
  }

  /* ----- what a reader of the standard makes of it ----- */

  /** A key section 6.4 of RFC 6763 allows: at least one character, all printable US-ASCII but '='. */
  predicate StandardKey(key: string) {
    key != "" && forall i :: 0 <= i < |key| ==> ' ' <= key[i] <= '~' && key[i] != '='
  }

  predicate Printable(key: string) {
    key != "" && forall i :: 0 <= i < |key| ==> ' ' <= key[i] <= '~'
  }

  lemma StandardKeyIff(key: string)
    requires '=' !in key
    ensures StandardKey(key) <==> Printable(key)
  {
  }

  /** The properties a reader keeps: those without a key are ignored, and so is every
      one whose key, in any case, came before. */
  function Understood(properties: seq<Property>, before: set<string>): seq<Property> {
    if properties == [] then []
    else
      var p := properties[0];
      if p.key == "" || Lower(p.key) in before then Understood(properties[1..], before)
      else [p] + Understood(properties[1..], before + {Lower(p.key)})
  }

  function StandardRead(data: string): Option<seq<Property>> {
    match Decoded(data)
    case Some(properties) => Some(Understood(properties, {}))
    case None => None
  }

  /** Every key is there, and none came before. */
  predicate AllFresh(properties: seq<Property>, before: set<string>) {
    && (forall i :: 0 <= i < |properties| ==> properties[i].key != "" && Lower(properties[i].key) !in before)
    && forall i, j :: 0 <= i < j < |properties| ==> Lower(properties[i].key) != Lower(properties[j].key)
  }

  lemma AllFreshTail(properties: seq<Property>, before: set<string>)
    requires properties != [] && properties[0].key != "" && Lower(properties[0].key) !in before
    ensures AllFresh(properties, before) <==> AllFresh(properties[1..], before + {Lower(properties[0].key)})
  {
    var rest := properties[1..];
    assert forall i :: 0 <= i < |rest| ==> rest[i] == properties[i + 1];
    if AllFresh(rest, before + {Lower(properties[0].key)}) {
      forall i | 0 <= i < |properties|
        ensures properties[i].key != "" && Lower(properties[i].key) !in before
      {
        assert i > 0 ==> properties[i] == rest[i - 1];
      }
      forall i, j | 0 <= i < j < |properties|
        ensures Lower(properties[i].key) != Lower(properties[j].key)
      {
        assert properties[j] == rest[j - 1] && (i > 0 ==> properties[i] == rest[i - 1]);
      }
    }
  }

  lemma {:induction false} UnderstoodIff(properties: seq<Property>, before: set<string>)
    ensures |Understood(properties, before)| <= |properties|
    ensures Understood(properties, before) == properties <==> AllFresh(properties, before)
    decreases |properties|
  {
    if properties != [] {
      var p := properties[0];
      if p.key == "" || Lower(p.key) in before {
        UnderstoodIff(properties[1..], before);
      } else {
        UnderstoodIff(properties[1..], before + {Lower(p.key)});
        AllFreshTail(properties, before);
        assert properties == [p] + properties[1..];
        SameHead(p, Understood(properties[1..], before + {Lower(p.key)}), properties[1..]);
      }
    }
  }

  lemma SameHead<T>(x: T, a: seq<T>, b: seq<T>)
    ensures [x] + a == [x] + b <==> a == b
  {
    assert ([x] + a)[1..] == a && ([x] + b)[1..] == b;
  }

  /** A reader of the standard gets the properties back exactly when each has a key and no two
      keys are the same but for case. */
  lemma StandardReadsBackIff(properties: seq<Property>)
    requires Encoded(properties).Ok?
    ensures StandardRead(Encoded(properties).value) == Some(properties) <==> AllFresh(properties, {})
  {
    ItemsReadBack(properties);
    UnderstoodIff(properties, {});
  }

  lemma KeysMatch(items: seq<string>, properties: seq<Property>)
    requires CutAll(items) == properties && forall p :: p in properties ==> '=' !in p.key
    ensures (forall item :: item in items ==> StandardKey(CutAtEquals(item).key))
      <==> forall p :: p in properties ==> Printable(p.key)
  {
    forall k | 0 <= k < |items|
      ensures StandardKey(CutAtEquals(items[k]).key) <==> Printable(properties[k].key)
    {
      assert properties[k] in properties;
      StandardKeyIff(properties[k].key);
    }
    if forall item :: item in items ==> StandardKey(CutAtEquals(item).key) {
      forall p | p in properties
        ensures Printable(p.key)
      {
        var k :| 0 <= k < |properties| && properties[k] == p;
        assert items[k] in items;
      }
    } else {
      var item :| item in items && !StandardKey(CutAtEquals(item).key);
      var k :| 0 <= k < |items| && items[k] == item;
      assert properties[k] in properties;
    }
  }

  /** The keys found in the bytes are all allowed exactly when every key given is there and printable;
      the encoder itself asks only for ASCII without an equals sign. */
  lemma KeysAreStandardIff(properties: seq<Property>)
    requires Encoded(properties).Ok?
    ensures Items(Encoded(properties).value).Some?
    ensures (forall item :: item in Items(Encoded(properties).value).value ==> StandardKey(CutAtEquals(item).key))
      <==> forall p :: p in properties ==> Printable(p.key)
  {
    ItemsReadBack(properties);
    EncodingFailsIff(properties);
    forall p | p in properties
      ensures '=' !in p.key
    {
      var k :| 0 <= k < |properties| && properties[k] == p;
      assert Fault(properties[k]).None?;
    }
    KeysMatch(Items(Encoded(properties).value).value, properties);
  }

  /** Keys the encoder takes and the standard does not: none at all, and control characters. */
  lemma ForbiddenKeysEncode(value: string)
    requires |value| <= 253
    ensures Encoded([Property("", value)]).Ok? && !StandardKey("")
    ensures Encoded([Property("\t", value)]).Ok? && !StandardKey("\t")
    ensures Encoded([Property("\U{7F}", value)]).Ok? && !StandardKey("\U{7F}")
    ensures StandardRead(Encoded([Property("", value)]).value) == Some([])
  {
    assert "\t"[0] == '\t' && "\U{7F}"[0] == '\U{7F}';
    ItemsReadBack([Property("", value)]);
    assert Understood([Property("", value)], {}) == [];
  }
}
