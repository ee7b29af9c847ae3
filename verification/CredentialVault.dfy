// The credential vault and the injector that renders secrets into outbound payloads.
module CredentialVault {
  import opened Collections
  import opened Options
  import opened Templates

  // ---------------------------------------------------------------- payloads

  /** A payload tree. The fields of an object are listed in order; anything that holds no text is `Other`. */
  datatype Payload = Text(text: string) | Array(items: Items) | Object(fields: Fields) | Other(value: int)

  datatype Items = NoItems | Item(head: Payload, tail: Items)

  datatype Fields = NoFields | Field(key: string, value: Payload, rest: Fields)

  /** Every string of the tree, keys included, in the order of the walk. */
  function Strings(p: Payload): seq<string> {
    match p
    case Text(text) => [text]
    case Array(items) => StringsOfItems(items)
    case Object(fields) => StringsOfFields(fields)
    case Other(_) => []
  }

  function StringsOfItems(items: Items): seq<string> {
    match items
    case NoItems => []
    case Item(head, tail) => Strings(head) + StringsOfItems(tail)
  }

  function StringsOfFields(fields: Fields): seq<string> {
    match fields
    case NoFields => []
    case Field(key, value, rest) => [key] + Strings(value) + StringsOfFields(rest)
  }

  /** The tree with the placeholders of every string and every key replaced. */
  function SubstituteIn(p: Payload, values: map<string, string>): Payload {
    match p
    case Text(text) => Text(Substitute(text, values))
    case Array(items) => Array(SubstituteInItems(items, values))
    case Object(fields) => Object(SubstituteInFields(fields, values))
    case Other(_) => p
  }

  function SubstituteInItems(items: Items, values: map<string, string>): Items {
    match items
    case NoItems => NoItems
    case Item(head, tail) => Item(SubstituteIn(head, values), SubstituteInItems(tail, values))
  }

  function SubstituteInFields(fields: Fields, values: map<string, string>): Fields {
    match fields
    case NoFields => NoFields
    case Field(key, value, rest) =>
      Field(Substitute(key, values), SubstituteIn(value, values), SubstituteInFields(rest, values))
  }

  /** The two trees differ in their strings and keys at most. */
  predicate SameShape(p: Payload, q: Payload) {
    match p
    case Text(_) => q.Text?
    case Array(items) => q.Array? && SameItems(items, q.items)
    case Object(fields) => q.Object? && SameFields(fields, q.fields)
    case Other(_) => p == q
  }

  predicate SameItems(items: Items, others: Items) {
    match items
    case NoItems => others.NoItems?
    case Item(head, tail) => others.Item? && SameShape(head, others.head) && SameItems(tail, others.tail)
  }

  predicate SameFields(fields: Fields, others: Fields) {
    match fields
    case NoFields => others.NoFields?
    case Field(_, value, rest) => others.Field? && SameShape(value, others.value) && SameFields(rest, others.rest)
  }

  /** The strings one by one, each with its placeholders replaced. */
  function SubstituteEach(strings: seq<string>, values: map<string, string>): seq<string> {
    if strings == [] then [] else [Substitute(strings[0], values)] + SubstituteEach(strings[1..], values)
  }

  lemma {:induction false} SubstituteEachAt(strings: seq<string>, values: map<string, string>)
    ensures |SubstituteEach(strings, values)| == |strings|
    ensures forall i :: 0 <= i < |strings| ==> SubstituteEach(strings, values)[i] == Substitute(strings[i], values)
  {
    if strings != [] {
      SubstituteEachAt(strings[1..], values);
    }
  }

  lemma {:induction false} SubstituteEachJoin(strings: seq<string>, more: seq<string>, values: map<string, string>)
    ensures SubstituteEach(strings + more, values) == SubstituteEach(strings, values) + SubstituteEach(more, values)
  {
    SubstituteEachAt(strings, values);
    SubstituteEachAt(more, values);
    SubstituteEachAt(strings + more, values);
  }

  /** Rendering keeps the tree's shape and replaces each string of the walk on its own. */
  lemma {:induction false} RenderingIsStringwise(p: Payload, values: map<string, string>)
    ensures SameShape(p, SubstituteIn(p, values))
    ensures Strings(SubstituteIn(p, values)) == SubstituteEach(Strings(p), values)
  {
    match p
    case Text(text) => assert [text][1..] == [];
    case Array(items) => RenderingItems(items, values);
    case Object(fields) => RenderingFields(fields, values);
    case Other(_) =>
  }

  lemma {:induction false} RenderingItems(items: Items, values: map<string, string>)
    ensures SameItems(items, SubstituteInItems(items, values))
    ensures StringsOfItems(SubstituteInItems(items, values)) == SubstituteEach(StringsOfItems(items), values)
  {
    if items.Item? {
      RenderingIsStringwise(items.head, values);
      RenderingItems(items.tail, values);
      SubstituteEachJoin(Strings(items.head), StringsOfItems(items.tail), values);
    }
  }

  lemma {:induction false} RenderingFields(fields: Fields, values: map<string, string>)
    ensures SameFields(fields, SubstituteInFields(fields, values))
    ensures StringsOfFields(SubstituteInFields(fields, values)) == SubstituteEach(StringsOfFields(fields), values)
  {
    if fields.Field? {
      RenderingIsStringwise(fields.value, values);
      RenderingFields(fields.rest, values);
      SubstituteEachJoin([fields.key], Strings(fields.value), values);
      SubstituteEachJoin([fields.key] + Strings(fields.value), StringsOfFields(fields.rest), values);
      assert [fields.key][1..] == [];
    }
  }

  /** Shape and strings together are the whole tree. */
  lemma {:induction false} ShapeAndStringsAreAll(p: Payload, q: Payload)
    requires SameShape(p, q)
    ensures |Strings(p)| == |Strings(q)|
    ensures Strings(p) == Strings(q) ==> p == q
  {
    match p
    case Text(text) => assert Strings(p)[0] == text && Strings(q)[0] == q.text;
    case Array(items) => ItemsAreAll(items, q.items);
    case Object(fields) => FieldsAreAll(fields, q.fields);
    case Other(_) =>
  }

  lemma {:induction false} ItemsAreAll(items: Items, others: Items)
    requires SameItems(items, others)
    ensures |StringsOfItems(items)| == |StringsOfItems(others)|
    ensures StringsOfItems(items) == StringsOfItems(others) ==> items == others
  {
    if items.Item? {
      ShapeAndStringsAreAll(items.head, others.head);
      ItemsAreAll(items.tail, others.tail);
      SplitEqual(Strings(items.head), StringsOfItems(items.tail), Strings(others.head), StringsOfItems(others.tail));
    }
  }

  lemma {:induction false} FieldsAreAll(fields: Fields, others: Fields)
    requires SameFields(fields, others)
    ensures |StringsOfFields(fields)| == |StringsOfFields(others)|
    ensures StringsOfFields(fields) == StringsOfFields(others) ==> fields == others
  {
    if fields.Field? {
      ShapeAndStringsAreAll(fields.value, others.value);
      FieldsAreAll(fields.rest, others.rest);
      var a, b := [fields.key] + Strings(fields.value), [others.key] + Strings(others.value);
      SplitEqual(a, StringsOfFields(fields.rest), b, StringsOfFields(others.rest));
      SplitEqual([fields.key], Strings(fields.value), [others.key], Strings(others.value));
      assert [fields.key] == [others.key] ==> fields.key == [others.key][0];
    }
  }

  lemma {:induction false} SplitEqual<T>(a: seq<T>, b: seq<T>, c: seq<T>, d: seq<T>)
    requires |a| == |c|
    ensures a + b == c + d ==> a == c && b == d
  {
    if a + b == c + d {
      assert a == (a + b)[..|a|] && c == (c + d)[..|a|];
      assert b == (a + b)[|a|..] && d == (c + d)[|a|..];
    }
  }

  // ---------------------------------------------------------------- keys that are rendered alike

  /** Setting a field of an object under construction: a key that is there keeps its place and gets the new value. */
  function Put(fields: Fields, key: string, value: Payload): Fields {
    match fields
    case NoFields => Field(key, value, NoFields)
    case Field(k, v, rest) => if k == key then Field(k, value, rest) else Field(k, v, Put(rest, key, value))
  }

  /** Rendering builds every object anew, field by field. */
  function Render(p: Payload, values: map<string, string>): Payload {
    match p
    case Text(text) => Text(Substitute(text, values))
    case Array(items) => Array(RenderItems(items, values))
    case Object(fields) => Object(RenderFields(fields, values, NoFields))
    case Other(_) => p
  }

  function RenderItems(items: Items, values: map<string, string>): Items {
    match items
    case NoItems => NoItems
    case Item(head, tail) => Item(Render(head, values), RenderItems(tail, values))
  }

  function RenderFields(fields: Fields, values: map<string, string>, out: Fields): Fields {
    match fields
    case NoFields => out
    case Field(key, value, rest) => RenderFields(rest, values, Put(out, Substitute(key, values), Render(value, values)))
  }

  /** A tree built anew as it is: of fields with one key the last value stays, at the place of the first. */
  function Rebuilt(p: Payload): Payload {
    match p
    case Text(_) => p
    case Array(items) => Array(RebuiltItems(items))
    case Object(fields) => Object(RebuiltFields(fields, NoFields))
    case Other(_) => p
  }

  function RebuiltItems(items: Items): Items {
    match items
    case NoItems => NoItems
    case Item(head, tail) => Item(Rebuilt(head), RebuiltItems(tail))
  }

  function RebuiltFields(fields: Fields, out: Fields): Fields {
    match fields
    case NoFields => out
    case Field(key, value, rest) => RebuiltFields(rest, Put(out, key, Rebuilt(value)))
  }

  /** Rendering is substituting and building anew. */
  lemma {:induction false} RenderRebuilds(p: Payload, values: map<string, string>)
    ensures Render(p, values) == Rebuilt(SubstituteIn(p, values))
  {
    match p
    case Text(_) =>
    case Array(items) => RenderRebuildsItems(items, values);
    case Object(fields) => RenderRebuildsFields(fields, values, NoFields);
    case Other(_) =>
  }

  lemma {:induction false} RenderRebuildsItems(items: Items, values: map<string, string>)
    ensures RenderItems(items, values) == RebuiltItems(SubstituteInItems(items, values))
  {
    if items.Item? {
      RenderRebuilds(items.head, values);
      RenderRebuildsItems(items.tail, values);
    }
  }

  lemma {:induction false} RenderRebuildsFields(fields: Fields, values: map<string, string>, out: Fields)
    ensures RenderFields(fields, values, out) == RebuiltFields(SubstituteInFields(fields, values), out)
  {
    if fields.Field? {
      RenderRebuilds(fields.value, values);
      RenderRebuildsFields(fields.rest, values, Put(out, Substitute(fields.key, values), Render(fields.value, values)));
    }
  }

  predicate HasKey(fields: Fields, key: string) {
    fields.Field? && (fields.key == key || HasKey(fields.rest, key))
  }

  /** No object of the tree has two fields with one key. */
  predicate KeysApart(p: Payload) {
    match p
    case Text(_) => true
    case Array(items) => KeysApartInItems(items)
    case Object(fields) => KeysApartInFields(fields)
    case Other(_) => true
  }

  predicate KeysApartInItems(items: Items) {
    items.Item? ==> KeysApart(items.head) && KeysApartInItems(items.tail)
  }

  predicate KeysApartInFields(fields: Fields) {
    fields.Field? ==> !HasKey(fields.rest, fields.key) && KeysApart(fields.value) && KeysApartInFields(fields.rest)
  }

  lemma {:induction false} PutKeepsApart(fields: Fields, key: string, value: Payload)
    requires KeysApartInFields(fields) && KeysApart(value)
    ensures KeysApartInFields(Put(fields, key, value))
    ensures forall k :: HasKey(Put(fields, key, value), k) <==> k == key || HasKey(fields, k)
  {
    if fields.Field? && fields.key != key {
      PutKeepsApart(fields.rest, key, value);
    }
  }

  lemma {:induction false} RebuiltIsApart(p: Payload)
    ensures KeysApart(Rebuilt(p))
  {
    match p
    case Text(_) =>
    case Array(items) => RebuiltItemsAreApart(items);
    case Object(fields) => RebuiltFieldsAreApart(fields, NoFields);
    case Other(_) =>
  }

  lemma {:induction false} RebuiltItemsAreApart(items: Items)
    ensures KeysApartInItems(RebuiltItems(items))
  {
    if items.Item? {
      RebuiltIsApart(items.head);
      RebuiltItemsAreApart(items.tail);
    }
  }

  lemma {:induction false} RebuiltFieldsAreApart(fields: Fields, out: Fields)
    requires KeysApartInFields(out)
    ensures KeysApartInFields(RebuiltFields(fields, out))
  {
    if fields.Field? {
      RebuiltIsApart(fields.value);
      PutKeepsApart(out, fields.key, Rebuilt(fields.value));
      RebuiltFieldsAreApart(fields.rest, Put(out, fields.key, Rebuilt(fields.value)));
    }
  }

  function Append(fields: Fields, more: Fields): Fields {
    match fields
    case NoFields => more
    case Field(key, value, rest) => Field(key, value, Append(rest, more))
  }

  lemma {:induction false} PutAppends(fields: Fields, key: string, value: Payload, more: Fields)
    requires !HasKey(fields, key)
    ensures Append(Put(fields, key, value), more) == Append(fields, Field(key, value, more))
    ensures forall k :: HasKey(Put(fields, key, value), k) <==> k == key || HasKey(fields, k)
  {
    if fields.Field? {
      PutAppends(fields.rest, key, value, more);
    }
  }

  lemma {:induction false} AppendNothing(fields: Fields)
    ensures Append(fields, NoFields) == fields
  {
    if fields.Field? {
      AppendNothing(fields.rest);
    }
  }

  /** Building a tree anew leaves it as it is if and only if no object has two fields with one key. */
  lemma {:induction false} RebuiltExactlyWhen(p: Payload)
    ensures Rebuilt(p) == p <==> KeysApart(p)
  {
    RebuiltIsApart(p);
    if KeysApart(p) {
      ApartIsKept(p);
    }
  }

  lemma {:induction false} ApartIsKept(p: Payload)
    requires KeysApart(p)
    ensures Rebuilt(p) == p
  {
    match p
    case Text(_) =>
    case Array(items) => ApartItemsAreKept(items);
    case Object(fields) => ApartFieldsAreKept(fields, NoFields);
    case Other(_) =>
  }

  lemma {:induction false} ApartItemsAreKept(items: Items)
    requires KeysApartInItems(items)
    ensures RebuiltItems(items) == items
  {
    if items.Item? {
      ApartIsKept(items.head);
      ApartItemsAreKept(items.tail);
    }
  }

  lemma {:induction false} ApartFieldsAreKept(fields: Fields, out: Fields)
    requires KeysApartInFields(fields) && forall k :: HasKey(fields, k) ==> !HasKey(out, k)
    ensures RebuiltFields(fields, out) == Append(out, fields)
  {
    if fields.Field? {
      assert HasKey(fields, fields.key);
      ApartIsKept(fields.value);
      PutAppends(out, fields.key, fields.value, fields.rest);
      forall k | HasKey(fields.rest, k) ensures !HasKey(Put(out, fields.key, fields.value), k) {
        assert HasKey(fields, k);
      }
      ApartFieldsAreKept(fields.rest, Put(out, fields.key, fields.value));
    } else {
      AppendNothing(out);
    }
  }

  /**
   * Rendering replaces every string and key in its place, shape and all, if and only if no two keys of one object are
   * rendered alike.
   */
  lemma {:induction false} RenderingExactlyWhen(p: Payload, values: map<string, string>)
    ensures Render(p, values) == SubstituteIn(p, values) <==> KeysApart(SubstituteIn(p, values))
  {
    RenderRebuilds(p, values);
    RebuiltExactlyWhen(SubstituteIn(p, values));
  }

  /** The value that stands last under a key. */
  function LastUnder(fields: Fields, key: string): Option<Payload> {
    match fields
    case NoFields => None
    case Field(k, v, rest) =>
      if LastUnder(rest, key).Some? then LastUnder(rest, key) else if k == key then Some(v) else None
  }

  lemma {:induction false} LastIsKey(fields: Fields, key: string)
    ensures LastUnder(fields, key).Some? <==> HasKey(fields, key)
  {
    if fields.Field? {
      LastIsKey(fields.rest, key);
    }
  }

  lemma {:induction false} PutIsLast(fields: Fields, key: string, value: Payload, k: string)
    requires KeysApartInFields(fields) && KeysApart(value)
    ensures LastUnder(Put(fields, key, value), k) == if k == key then Some(value) else LastUnder(fields, k)
  {
    if fields.Field? {
      LastIsKey(fields.rest, fields.key);
      if fields.key != key {
        PutIsLast(fields.rest, key, value, k);
      }
    }
  }

  /** Where keys are rendered alike, the value of the last of them is kept. */
  lemma {:induction false} LastKeyWins(fields: Fields, out: Fields, key: string)
    requires KeysApartInFields(out)
    ensures LastUnder(RebuiltFields(fields, out), key)
         == if LastUnder(fields, key).Some? then Some(Rebuilt(LastUnder(fields, key).value)) else LastUnder(out, key)
  {
    if fields.Field? {
      RebuiltIsApart(fields.value);
      PutKeepsApart(out, fields.key, Rebuilt(fields.value));
      PutIsLast(out, fields.key, Rebuilt(fields.value), key);
      LastKeyWins(fields.rest, Put(out, fields.key, Rebuilt(fields.value)), key);
    }
  }

  // ---------------------------------------------------------------- the handles a payload asks for

  function AllPlaceholders(strings: seq<string>): seq<string> {
    if strings == [] then []
    else AllPlaceholders(strings[..|strings| - 1]) + Placeholders(strings[|strings| - 1])
  }

  /** The names of a payload's placeholders, without repetition, in the order of their first appearance. */
  function Requested(p: Payload): seq<string> {
    IncludeAll([], AllPlaceholders(Strings(p)))
  }

  method CollectPlaceholders(p: Payload) returns (names: seq<string>)
    ensures names == Requested(p)
  {
    var strings := Strings(p);
    names := [];
    for i := 0 to |strings|
      invariant names == IncludeAll([], AllPlaceholders(strings[..i]))
    {
      IncludeAllJoin([], AllPlaceholders(strings[..i]), Placeholders(strings[i]));
      assert strings[..i + 1][..i] == strings[..i];
      names := CollectFrom(strings[i], names);
    }
    assert strings[..|strings|] == strings;
  }

  lemma {:induction false} PlaceholderIsAmongAll(strings: seq<string>, i: nat, name: string)
    requires i < |strings| && name in Placeholders(strings[i])
    ensures name in AllPlaceholders(strings)
  {
    if i < |strings| - 1 {
      PlaceholderIsAmongAll(strings[..|strings| - 1], i, name);
    }
  }

  lemma {:induction false} RequestedMeaning(p: Payload)
    ensures NoDuplicates(Requested(p))
    ensures forall n :: n in Requested(p) <==> n in AllPlaceholders(Strings(p))
  {
    IncludeAllMeaning([], AllPlaceholders(Strings(p)));
  }

  /** Only the values of the handles a string asks for matter. */
  lemma {:induction false} EachDepends(strings: seq<string>, values: map<string, string>, others: map<string, string>)
    requires forall i :: 0 <= i < |strings| ==> AgreeOn(strings[i], values, others)
    ensures SubstituteEach(strings, values) == SubstituteEach(strings, others)
  {
    if strings != [] {
      RenderedDepends(PiecesFrom(strings[0], 0), values, others);
      EachDepends(strings[1..], values, others);
    }
  }

  ghost predicate AgreeOn(s: string, values: map<string, string>, others: map<string, string>) {
    forall n :: n in Placeholders(s) ==> SameAt(values, others, n)
  }

  /** Two value tables that agree on the requested handles render the payload alike. */
  lemma {:induction false} RenderingDepends(p: Payload, values: map<string, string>, others: map<string, string>)
    requires forall n :: n in Requested(p) ==> SameAt(values, others, n)
    ensures SubstituteIn(p, values) == SubstituteIn(p, others) && Render(p, values) == Render(p, others)
  {
    var strings := Strings(p);
    RequestedMeaning(p);
    forall i | 0 <= i < |strings| ensures AgreeOn(strings[i], values, others) {
      forall n | n in Placeholders(strings[i]) ensures SameAt(values, others, n) {
        PlaceholderIsAmongAll(strings, i, n);
      }
    }
    EachDepends(strings, values, others);
    RenderingIsStringwise(p, values);
    RenderingIsStringwise(p, others);
    SameShapeJoins(p, SubstituteIn(p, values), SubstituteIn(p, others));
    ShapeAndStringsAreAll(SubstituteIn(p, values), SubstituteIn(p, others));
    RenderRebuilds(p, values);
    RenderRebuilds(p, others);
  }

  lemma {:induction false} SameShapeJoins(p: Payload, q: Payload, r: Payload)
    requires SameShape(p, q) && SameShape(p, r)
    ensures SameShape(q, r)
  {
    match p
    case Text(_) =>
    case Array(items) => SameItemsJoin(items, q.items, r.items);
    case Object(fields) => SameFieldsJoin(fields, q.fields, r.fields);
    case Other(_) =>
  }

  lemma {:induction false} SameItemsJoin(a: Items, b: Items, c: Items)
    requires SameItems(a, b) && SameItems(a, c)
    ensures SameItems(b, c)
  {
    if a.Item? {
      SameShapeJoins(a.head, b.head, c.head);
      SameItemsJoin(a.tail, b.tail, c.tail);
    }
  }

  lemma {:induction false} SameFieldsJoin(a: Fields, b: Fields, c: Fields)
    requires SameFields(a, b) && SameFields(a, c)
    ensures SameFields(b, c)
  {
    if a.Field? {
      SameShapeJoins(a.value, b.value, c.value);
      SameFieldsJoin(a.rest, b.rest, c.rest);
    }
  }

  // ---------------------------------------------------------------- access and audit

  type Bindings = map<string, string>

  /** What the resolver reads: the secret values by name, and the profiles by agent. */
  datatype Store = Store(values: map<string, string>, profiles: map<string, Bindings>)

  datatype Decision = Allow | Deny

  datatype AuditEvent = AuditEvent(
    agentDid: string, handleName: string, targetService: string, actionClass: string, decision: Decision,
    policyVersion: string, reason: string)

  const DENY_REASON := "credential_denied"

  datatype Context = Context(
    agentDid: string, actionClass: string, targetService: string, requestedHandles: set<string>, policyVersion: string)

  datatype Call = Call(
    agentDid: string, actionClass: string, targetService: string, policyVersion: string, allowedHandles: set<string>,
    policyCheck: Option<Context -> bool>)

  datatype DenyReceipt = DenyReceipt(reason: string, actionClass: string, targetService: string)

  datatype Outcome =
    | Rendered(payload: Payload, events: seq<AuditEvent>)
    | Refused(receipt: DenyReceipt, events: seq<AuditEvent>)

  function BoundHandle(profiles: map<string, Bindings>, agentDid: string, actionClass: string): Option<string> {
    if agentDid in profiles && actionClass in profiles[agentDid] then Some(profiles[agentDid][actionClass]) else None
  }

  predicate HasAccess(st: Store, agentDid: string, handleName: string, actionClass: string) {
    BoundHandle(st.profiles, agentDid, actionClass) == Some(handleName) && handleName in st.values
  }

  function EventFor(call: Call, handleName: string, decision: Decision): AuditEvent {
    AuditEvent(call.agentDid, handleName, call.targetService, call.actionClass, decision, call.policyVersion,
               if decision == Allow then "" else DENY_REASON)
  }

  function Receipt(call: Call): DenyReceipt {
    DenyReceipt(DENY_REASON, call.actionClass, call.targetService)
  }

  function SetOf(names: seq<string>): set<string> {
    set n | n in names
  }

  predicate PolicyAllows(call: Call, requested: seq<string>) {
    call.policyCheck.Some? ==>
      call.policyCheck.value(
        Context(call.agentDid, call.actionClass, call.targetService, SetOf(requested), call.policyVersion))
  }

  /** The first requested handle outside the allowlist. */
  function FirstOutside(requested: seq<string>, allowed: set<string>): Option<string> {
    if requested == [] then None
    else if requested[0] !in allowed then Some(requested[0])
    else FirstOutside(requested[1..], allowed)
  }

  /** Resolving one handle after the other; the first refusal ends it. */
  function Resolve(st: Store, call: Call, names: seq<string>): (Option<map<string, string>>, seq<AuditEvent>) {
    if names == [] then (Some(map[]), [])
    else
      var last := names[|names| - 1];
      var (values, events) := Resolve(st, call, names[..|names| - 1]);
      if values.None? then (None, events)
      else if HasAccess(st, call.agentDid, last, call.actionClass) then
        (Some(values.value[last := st.values[last]]), events + [EventFor(call, last, Allow)])
      else (None, events + [EventFor(call, last, Deny)])
  }

  /** The outcome of one injection call. */
  function Inject(st: Store, payload: Payload, call: Call): Outcome {
    var requested := Requested(payload);
    var outside := FirstOutside(requested, call.allowedHandles);
    if outside.Some? then Refused(Receipt(call), [EventFor(call, outside.value, Deny)])
    else if !PolicyAllows(call, requested) then
      Refused(Receipt(call), [EventFor(call, if requested == [] then "" else requested[0], Deny)])
    else
      var (values, events) := Resolve(st, call, requested);
      if values.None? then Refused(Receipt(call), events)
      else Rendered(Render(payload, values.value), events)
  }

  // ---------------------------------------------------------------- what an injection call promises

  lemma {:induction false} OutsideMeaning(requested: seq<string>, allowed: set<string>)
    ensures FirstOutside(requested, allowed).None? <==> forall n :: n in requested ==> n in allowed
  {
    if requested != [] {
      OutsideMeaning(requested[1..], allowed);
      assert requested == [requested[0]] + requested[1..];
    }
  }

  /** The handles all resolve exactly when the agent has access to each, and then to their values in the vault. */
  lemma {:induction false} ResolveMeaning(st: Store, call: Call, names: seq<string>)
    ensures var (values, events) := Resolve(st, call, names);
            && (values.Some? <==> forall n :: n in names ==> HasAccess(st, call.agentDid, n, call.actionClass))
            && (values.Some? ==>
                  forall n :: n in names ==> n in values.value && n in st.values && values.value[n] == st.values[n])
            && (values.Some? ==> AllAllow(events) && |events| == |names|)
            && (values.None? ==> EndsInDenial(events))
  {
    if names != [] {
      var init, last := names[..|names| - 1], names[|names| - 1];
      ResolveMeaning(st, call, init);
      assert names == init + [last];
    }
  }

  predicate AllAllow(events: seq<AuditEvent>) {
    forall i :: 0 <= i < |events| ==> events[i].decision == Allow
  }

  /** One denial, at the end. */
  predicate EndsInDenial(events: seq<AuditEvent>) {
    && |events| > 0 && events[|events| - 1].decision == Deny && events[|events| - 1].reason == DENY_REASON
    && forall i :: 0 <= i < |events| - 1 ==> events[i].decision == Allow
  }

  /** The names of the placeholders in the strings and keys of a payload. */
  function Asked(payload: Payload): set<string> {
    set i, n | 0 <= i < |Strings(payload)| && n in Placeholders(Strings(payload)[i]) :: n
  }

  lemma {:induction false} AskedIsRequested(payload: Payload)
    ensures Asked(payload) == SetOf(Requested(payload))
  {
    RequestedMeaning(payload);
    AllPlaceholdersMeaning(Strings(payload));
  }

  lemma {:induction false} AllPlaceholdersMeaning(strings: seq<string>)
    ensures forall n :: n in AllPlaceholders(strings) <==>
              exists i :: 0 <= i < |strings| && n in Placeholders(strings[i])
  {
    if strings != [] {
      var init, last := strings[..|strings| - 1], strings[|strings| - 1];
      AllPlaceholdersMeaning(init);
      forall n ensures n in AllPlaceholders(strings) <==>
                         exists i :: 0 <= i < |strings| && n in Placeholders(strings[i])
      {
        if i :| 0 <= i < |strings| && n in Placeholders(strings[i]) {
          PlaceholderIsAmongAll(strings, i, n);
        }
        if n in AllPlaceholders(init) {
          var i :| 0 <= i < |init| && n in Placeholders(init[i]);
          assert strings[i] == init[i];
        }
        assert last == strings[|strings| - 1];
      }
    }
  }

  /** The agent's profile binds this handle to the action, and the vault holds it. */
  predicate IsOpen(st: Store, call: Call, name: string) {
    && call.agentDid in st.profiles && call.actionClass in st.profiles[call.agentDid]
    && st.profiles[call.agentDid][call.actionClass] == name && name in st.values
  }

  /**
   * A call is allowed exactly when the policy check, if there is one, holds of the call and the names it asks for, and
   * every name is on the allowlist and open to the agent for the action. An allowed call asks for one handle at most.
   */
  lemma {:induction false} AllowedExactlyWhen(st: Store, payload: Payload, call: Call)
    ensures var o := Inject(st, payload, call);
            && (o.Rendered? <==>
                  && (forall check :: call.policyCheck == Some(check) ==>
                        check(Context(call.agentDid, call.actionClass, call.targetService, Asked(payload),
                                      call.policyVersion)))
                  && forall n :: n in Asked(payload) ==> n in call.allowedHandles && IsOpen(st, call, n))
            && (o.Rendered? ==> |Requested(payload)| <= 1 && |o.events| == |Requested(payload)| && AllAllow(o.events))
            && (o.Refused? ==> o.receipt == Receipt(call) && EndsInDenial(o.events))
  {
    var requested := Requested(payload);
    AskedIsRequested(payload);
    OutsideMeaning(requested, call.allowedHandles);
    ResolveMeaning(st, call, requested);
    if Inject(st, payload, call).Rendered? {
      RequestedMeaning(payload);
      OneHandleOnly(st, call, requested);
    }
  }

  /** The event that a call leaves for a handle. */
  function Trace(call: Call, name: string, allowed: bool): AuditEvent {
    AuditEvent(call.agentDid, name, call.targetService, call.actionClass, if allowed then Allow else Deny,
               call.policyVersion, if allowed then "" else "credential_denied")
  }

  /** Where in the order of first appearance the first name stands that is not on the allowlist. */
  predicate FirstRefused(names: seq<string>, allowed: set<string>, i: nat) {
    i < |names| && names[i] !in allowed && forall j :: 0 <= j < i ==> names[j] in allowed
  }

  lemma {:induction false} OutsideIsFirst(names: seq<string>, allowed: set<string>)
    requires FirstOutside(names, allowed).Some?
    ensures exists i: nat :: FirstRefused(names, allowed, i) && names[i] == FirstOutside(names, allowed).value
  {
    if names[0] in allowed {
      OutsideIsFirst(names[1..], allowed);
      var i: nat :| FirstRefused(names[1..], allowed, i) && names[1..][i] == FirstOutside(names[1..], allowed).value;
      assert FirstRefused(names, allowed, i + 1);
    } else {
      assert FirstRefused(names, allowed, 0);
    }
  }

  /** The names before `i` are open and the one at `i` is not, or all are when `i` is the end. */
  predicate OpenUpTo(st: Store, call: Call, names: seq<string>, i: nat) {
    && i <= |names| && (forall j :: 0 <= j < i ==> IsOpen(st, call, names[j]))
    && (i < |names| ==> !IsOpen(st, call, names[i]))
  }

  /** One trace for every name up to the first that is not open, that one included. */
  predicate Traces(call: Call, names: seq<string>, i: nat, events: seq<AuditEvent>) {
    i <= |names| && |events| == (if i < |names| then i + 1 else i)
    && forall j :: 0 <= j < |events| ==> events[j] == Trace(call, names[j], j < i)
  }

  function FirstClosed(st: Store, call: Call, names: seq<string>): (i: nat)
    ensures i <= |names|
  {
    if names == [] then 0
    else
      var i := FirstClosed(st, call, names[..|names| - 1]);
      if i == |names| - 1 && IsOpen(st, call, names[|names| - 1]) then |names| else i
  }

  lemma {:induction false} FirstClosedMeaning(st: Store, call: Call, names: seq<string>)
    ensures OpenUpTo(st, call, names, FirstClosed(st, call, names))
  {
    if names != [] {
      var init, last := names[..|names| - 1], names[|names| - 1];
      FirstClosedMeaning(st, call, init);
      OneMoreName(st, call, init, last, FirstClosed(st, call, init));
      assert names == init + [last];
    }
  }

  lemma {:induction false} ResolvedWhen(st: Store, call: Call, names: seq<string>)
    ensures Resolve(st, call, names).0.Some? <==> FirstClosed(st, call, names) == |names|
  {
    if names != [] {
      ResolvedWhen(st, call, names[..|names| - 1]);
    }
  }

  lemma {:induction false} ResolveLeaves(st: Store, call: Call, names: seq<string>)
    ensures Traces(call, names, FirstClosed(st, call, names), Resolve(st, call, names).1)
  {
    if names != [] {
      var init, last := names[..|names| - 1], names[|names| - 1];
      ResolveLeaves(st, call, init);
      LeavesOneMore(st, call, names);
      OneMoreTrace(call, init, last, FirstClosed(st, call, init), Resolve(st, call, init).1, IsOpen(st, call, last));
      assert names == init + [last];
    }
  }

  lemma {:induction false} LeavesOneMore(st: Store, call: Call, names: seq<string>)
    requires names != []
    ensures var init, last := names[..|names| - 1], names[|names| - 1];
            var i, ok := FirstClosed(st, call, init), IsOpen(st, call, last);
            && FirstClosed(st, call, names) == (if i == |init| && ok then i + 1 else i)
            && Resolve(st, call, names).1
               == Resolve(st, call, init).1 + (if i == |init| then [Trace(call, last, ok)] else [])
  {
    ResolvedWhen(st, call, names[..|names| - 1]);
  }

  lemma {:induction false} OneMoreTrace(call: Call, init: seq<string>, last: string, i: nat, events: seq<AuditEvent>,
                                        ok: bool)
    requires Traces(call, init, i, events)
    ensures if i < |init| then Traces(call, init + [last], i, events)
            else Traces(call, init + [last], if ok then i + 1 else i, events + [Trace(call, last, ok)])
  {
    var names := init + [last];
    forall j | 0 <= j < |init| ensures names[j] == init[j] {
    }
  }

  lemma {:induction false} OneMoreName(st: Store, call: Call, init: seq<string>, last: string, i: nat)
    requires OpenUpTo(st, call, init, i)
    ensures OpenUpTo(st, call, init + [last], if i == |init| && IsOpen(st, call, last) then i + 1 else i)
    ensures forall j :: 0 <= j < |init| ==> (init + [last])[j] == init[j]
  {
  }

  /**
   * A refused call leaves one denial, at the end: for the first name outside the allowlist; or, when the policy
   * refuses, for the first name asked for, if any; or else for the first name that is not open, behind what was
   * resolved before it. Every event is about this call.
   */
  lemma {:induction false} RefusalLeaves(st: Store, payload: Payload, call: Call)
    requires Inject(st, payload, call).Refused?
    ensures var o, names := Inject(st, payload, call), Requested(payload);
            var context := Context(call.agentDid, call.actionClass, call.targetService, Asked(payload),
                                   call.policyVersion);
            && o.receipt == DenyReceipt("credential_denied", call.actionClass, call.targetService)
            && (|| (exists i: nat ::
                      FirstRefused(names, call.allowedHandles, i) && o.events == [Trace(call, names[i], false)])
                || ((forall n :: n in names ==> n in call.allowedHandles)
                    && o.events == [Trace(call, if names == [] then "" else names[0], false)]
                    && call.policyCheck.Some? && !call.policyCheck.value(context))
                || ((forall n :: n in names ==> n in call.allowedHandles)
                    && (call.policyCheck.Some? ==> call.policyCheck.value(context))
                    && exists i: nat :: OpenUpTo(st, call, names, i) && i < |names| && |o.events| == i + 1
                         && forall j :: 0 <= j <= i ==> o.events[j] == Trace(call, names[j], j < i)))
  {
    var names := Requested(payload);
    AskedIsRequested(payload);
    OutsideMeaning(names, call.allowedHandles);
    if FirstOutside(names, call.allowedHandles).Some? {
      OutsideIsFirst(names, call.allowedHandles);
    } else {
      ResolveLeaves(st, call, names);
      ResolvedWhen(st, call, names);
      FirstClosedMeaning(st, call, names);
    }
  }

  /** And an allowed one an approval for every name, in the order in which they were found. */
  lemma {:induction false} ApprovalLeaves(st: Store, payload: Payload, call: Call)
    requires Inject(st, payload, call).Rendered?
    ensures var o, names := Inject(st, payload, call), Requested(payload);
            |o.events| == |names| && forall j :: 0 <= j < |names| ==> o.events[j] == Trace(call, names[j], true)
  {
    ResolveLeaves(st, call, Requested(payload));
    ResolvedWhen(st, call, Requested(payload));
  }

  /** A profile binds one handle to an action. */
  lemma {:induction false} OneHandleOnly(st: Store, call: Call, names: seq<string>)
    requires NoDuplicates(names) && forall n :: n in names ==> HasAccess(st, call.agentDid, n, call.actionClass)
    ensures |names| <= 1
  {
    forall i, j | 0 <= i < |names| && 0 <= j < |names| ensures names[i] == names[j] {
      assert HasAccess(st, call.agentDid, names[i], call.actionClass);
      assert HasAccess(st, call.agentDid, names[j], call.actionClass);
    }
    if names != [] {
      assert names[0] == names[|names| - 1];
    }
  }

  /** On an allowed call every placeholder of every string and key has a value in the vault, and is replaced by it. */
  lemma {:induction false} AllowedRendersAll(st: Store, payload: Payload, call: Call)
    requires Inject(st, payload, call).Rendered?
    ensures Inject(st, payload, call).payload == Render(payload, st.values)
    ensures Inject(st, payload, call).payload == SubstituteIn(payload, st.values)
       <==> KeysApart(SubstituteIn(payload, st.values))
    ensures forall i, n :: 0 <= i < |Strings(payload)| && n in Placeholders(Strings(payload)[i]) ==> n in st.values
  {
    var requested := Requested(payload);
    ResolveMeaning(st, call, requested);
    RequestedMeaning(payload);
    RenderingDepends(payload, Resolve(st, call, requested).0.value, st.values);
    RenderingExactlyWhen(payload, st.values);
    forall i, n | 0 <= i < |Strings(payload)| && n in Placeholders(Strings(payload)[i]) ensures n in st.values {
      PlaceholderIsAmongAll(Strings(payload), i, n);
    }
  }

  /** The same profiles and the same names, whatever the secrets. */
  predicate SameButSecrets(st: Store, other: Store) {
    st.profiles == other.profiles && st.values.Keys == other.values.Keys
  }

  lemma {:induction false} ResolveIgnoresSecrets(st: Store, other: Store, call: Call, names: seq<string>)
    requires SameButSecrets(st, other)
    ensures Resolve(st, call, names).0.Some? <==> Resolve(other, call, names).0.Some?
    ensures Resolve(st, call, names).1 == Resolve(other, call, names).1
  {
    if names != [] {
      ResolveIgnoresSecrets(st, other, call, names[..|names| - 1]);
      assert names[|names| - 1] in st.values.Keys <==> names[|names| - 1] in other.values.Keys;
    }
  }

  /** Secrets show in an allowed payload only: decision, receipt and audit events are the same for any two of them. */
  lemma {:induction false} SecretsStayInPayloads(st: Store, other: Store, payload: Payload, call: Call)
    requires SameButSecrets(st, other)
    ensures var o, p := Inject(st, payload, call), Inject(other, payload, call);
            o.events == p.events && (o.Rendered? <==> p.Rendered?) && (o.Refused? ==> o == p)
  {
    ResolveIgnoresSecrets(st, other, call, Requested(payload));
  }

  /** And only the secret of the handle bound to the action: the others make no difference at all. */
  lemma {:induction false} OnlyTheBoundSecretShows(st: Store, other: Store, payload: Payload, call: Call)
    requires SameButSecrets(st, other)
    requires var h := BoundHandle(st.profiles, call.agentDid, call.actionClass);
             h.Some? ==> SameAt(st.values, other.values, h.value)
    ensures Inject(st, payload, call) == Inject(other, payload, call)
  {
    SecretsStayInPayloads(st, other, payload, call);
    if Inject(st, payload, call).Rendered? {
      AllowedRendersAll(st, payload, call);
      AllowedRendersAll(other, payload, call);
      AllowedExactlyWhen(st, payload, call);
      RenderingDepends(payload, st.values, other.values);
    }
  }

  // ---------------------------------------------------------------- the vault and the injector

  datatype Record = Record(value: string, credType: string, version: nat)

  datatype VaultError = InvalidName | UnknownCredential(name: string) | EmptyAgentDid

  /** The version a name has in the vault, or zero. */
  function LatestVersion(records: map<string, Record>, name: string): nat {
    if name in records then records[name].version else 0
  }

  /** The same credential with a new secret, one version on. */
  function Bumped(r: Record, newValue: string): Record {
    r.(value := newValue, version := r.version + 1)
  }

  class Vault {
    var records: map<string, Record>
    var profiles: map<string, Bindings>
    var audit: seq<AuditEvent>

    /** Every name in the vault can be written as a placeholder. */
    ghost predicate Valid()
      reads this
    {
      forall n :: n in records ==> ValidName(n)
    }

    /** So every stored handle is found wherever it is written, once and by its name, and replaced by its value. */
    lemma {:induction false} StoredHandleIsFound(name: string, before: string, after: string)
      requires Valid() && name in records
      ensures Placeholders(before + Placeholder(name) + after) == Placeholders(before) + [name] + Placeholders(after)
      ensures var values := View().values;
              Substitute(before + Placeholder(name) + after, values)
              == Substitute(before, values) + records[name].value + Substitute(after, values)
    {
      ChunkNames(before, name, after);
      ChunkSubstitute(before, name, after, View().values);
    }

    ghost function View(): Store
      reads this
    {
      Store(map n | n in records :: records[n].value, profiles)
    }

    constructor ()
      ensures Valid() && View() == Store(map[], map[]) && audit == []
    {
      records, profiles, audit := map[], map[], [];
    }

    /** The handle returned is a name whose placeholder is recognised wherever it is written. */
    method Put(name: string, value: string, credType: string) returns (r: Result<string, VaultError>)
      requires Valid()
      modifies this`records
      ensures Valid()
      ensures r == if ValidName(name) then Ok(name) else Err(InvalidName)
      ensures records == if r.Err? then old(records) else
                           old(records)[name := Record(value, credType, 1 + LatestVersion(old(records), name))]
      ensures View() == if r.Ok? then old(View()).(values := old(View()).values[name := value]) else old(View())
    {
      if !ValidName(name) {
        return Err(InvalidName);
      }
      var version := 1 + LatestVersion(records, name);
      records := records[name := Record(value, credType, version)];
      r := Ok(name);
    }

    method Rotate(name: string, newValue: string) returns (r: Result<string, VaultError>)
      requires Valid()
      modifies this`records
      ensures Valid()
      ensures r == if name in old(records) then Ok(name) else Err(UnknownCredential(name))
      ensures View() == if r.Ok? then old(View()).(values := old(View()).values[name := newValue]) else old(View())
      ensures records == if r.Err? then old(records) else
                           old(records)[name := Bumped(old(records)[name], newValue)]
      ensures SameButSecrets(old(View()), View())
    {
      if name !in records {
        return Err(UnknownCredential(name));
      }
      records := records[name := Bumped(records[name], newValue)];
      r := Ok(name);
    }

    method Delete(name: string) returns (present: bool)
      requires Valid()
      modifies this`records
      ensures Valid() && (present <==> name in old(records)) && records == old(records) - {name}
    {
      present := name in records;
      records := records - {name};
    }

    method RegisterProfile(agentDid: string, bindings: Bindings) returns (refusal: Option<VaultError>)
      modifies this`profiles
      ensures refusal == if agentDid == "" then Some(EmptyAgentDid) else None
      ensures profiles == if refusal.None? then old(profiles)[agentDid := bindings] else old(profiles)
    {
      if agentDid == "" {
        return Some(EmptyAgentDid);
      }
      profiles := profiles[agentDid := bindings];
      refusal := None;
    }

    method RevokeProfile(agentDid: string) returns (present: bool)
      modifies this`profiles
      ensures (present <==> agentDid in old(profiles)) && profiles == old(profiles) - {agentDid}
    {
      present := agentDid in profiles;
      profiles := profiles - {agentDid};
    }

    method CheckAccess(agentDid: string, handleName: string, actionClass: string) returns (ok: bool)
      ensures ok <==> HasAccess(View(), agentDid, handleName, actionClass)
    {
      if agentDid !in profiles {
        return false;
      }
      var profile := profiles[agentDid];
      if actionClass !in profile || profile[actionClass] != handleName {
        return false;
      }
      ok := handleName in records;
    }

    method ResolveOne(call: Call, handleName: string) returns (value: Option<string>, e: AuditEvent)
      modifies this`audit
      ensures value == if HasAccess(View(), call.agentDid, handleName, call.actionClass)
                       then Some(View().values[handleName]) else None
      ensures e == EventFor(call, handleName, if value.Some? then Allow else Deny)
      ensures audit == old(audit) + [e]
    {
      var ok := CheckAccess(call.agentDid, handleName, call.actionClass);
      if ok {
        value := Some(records[handleName].value);
        e := EventFor(call, handleName, Allow);
      } else {
        value := None;
        e := EventFor(call, handleName, Deny);
      }
      audit := audit + [e];
    }

    method RecordReject(e: AuditEvent)
      modifies this`audit
      ensures audit == old(audit) + [e]
    {
      audit := audit + [e];
    }
  }

  class CredentialInjector {
    const vault: Vault

    constructor (vault: Vault)
      ensures this.vault == vault
    {
      this.vault := vault;
    }

    /** The vault's secrets and profiles are left alone; its log gets exactly the events that are returned. */
    method InjectPayload(payload: Payload, call: Call) returns (o: Outcome)
      modifies vault`audit
      ensures o == Inject(old(vault.View()), payload, call)
      ensures vault.audit == old(vault.audit) + o.events
    {
      var requested := CollectPlaceholders(payload);
      var outside := FirstOutside(requested, call.allowedHandles);
      if outside.Some? {
        var e := EventFor(call, outside.value, Deny);
        vault.RecordReject(e);
        return Refused(Receipt(call), [e]);
      }
      if !PolicyAllows(call, requested) {
        var e := EventFor(call, if requested == [] then "" else requested[0], Deny);
        vault.RecordReject(e);
        return Refused(Receipt(call), [e]);
      }
      var values, events := ResolveAll(call, requested);
      if values.None? {
        return Refused(Receipt(call), events);
      }
      o := Rendered(Render(payload, values.value), events);
    }

    method ResolveAll(call: Call, requested: seq<string>)
      returns (r: Option<map<string, string>>, events: seq<AuditEvent>)
      modifies vault`audit
      ensures (r, events) == Resolve(old(vault.View()), call, requested)
      ensures vault.audit == old(vault.audit) + events
    {
      ghost var st := vault.View();
      var values: map<string, string> := map[];
      events := [];
      for i := 0 to |requested|
        invariant vault.View() == st
        invariant (Some(values), events) == Resolve(st, call, requested[..i])
        invariant vault.audit == old(vault.audit) + events
      {
        ResolveSnoc(st, call, requested, i);
        var value, e := vault.ResolveOne(call, requested[i]);
        events := events + [e];
        if value.None? {
          ResolveStops(st, call, requested, i + 1);
          return None, events;
        }
        values := values[requested[i] := value.value];
      }
      assert requested[..|requested|] == requested;
      r := Some(values);
    }
  }

  lemma {:induction false} ResolveSnoc(st: Store, call: Call, names: seq<string>, i: nat)
    requires i < |names| && Resolve(st, call, names[..i]).0.Some?
    ensures var (values, events) := Resolve(st, call, names[..i]);
            Resolve(st, call, names[..i + 1]) ==
              if HasAccess(st, call.agentDid, names[i], call.actionClass) then
                (Some(values.value[names[i] := st.values[names[i]]]), events + [EventFor(call, names[i], Allow)])
              else (None, events + [EventFor(call, names[i], Deny)])
  {
    assert names[..i + 1][..i] == names[..i];
  }

  lemma {:induction false} ResolveStops(st: Store, call: Call, names: seq<string>, i: nat)
    requires i <= |names| && Resolve(st, call, names[..i]).0.None?
    ensures Resolve(st, call, names) == Resolve(st, call, names[..i])
  {
    if i == |names| {
      assert names[..i] == names;
    } else {
      var init := names[..|names| - 1];
      assert init[..i] == names[..i];
      ResolveStops(st, call, init, i);
    }
  }

  /** The strings of a payload, from outside in. */
  lemma {:induction false} StringsInOrder(text: string, head: Payload, items: Items, key: string, value: Payload,
                                          rest: Fields, n: int)
    ensures Strings(Text(text)) == [text] && Strings(Other(n)) == []
    ensures Strings(Array(NoItems)) == [] && Strings(Object(NoFields)) == []
    ensures Strings(Array(Item(head, items))) == Strings(head) + Strings(Array(items))
    ensures Strings(Object(Field(key, value, rest))) == [key] + Strings(value) + Strings(Object(rest))
  {
  }

  /** Versions count from one, and a rotation changes the secret and the version only. */
  lemma {:induction false} VersionsCount(records: map<string, Record>, name: string, secret: string)
    ensures name !in records ==> 1 + LatestVersion(records, name) == 1
    ensures name in records ==> 1 + LatestVersion(records, name) == records[name].version + 1
    ensures name in records ==>
              Bumped(records[name], secret) == Record(secret, records[name].credType, records[name].version + 1)
  {
  }

  /** Access by the agent's own profile. */
  lemma {:induction false} AccessWhen(st: Store, agentDid: string, name: string, actionClass: string)
    ensures HasAccess(st, agentDid, name, actionClass) <==>
              && agentDid in st.profiles && actionClass in st.profiles[agentDid]
              && st.profiles[agentDid][actionClass] == name && name in st.values
  {
  }
}
