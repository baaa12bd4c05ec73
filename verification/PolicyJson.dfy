/**
 Compact policy metadata (`src/types/policy_json.rs`): objects are stored as vectors of entries, compared by a
 linear search in one direction and hashed after sorting. Both must agree with objects being maps.
 */
module PolicyJson {
  import opened Prelude
  import opened Orders

  /** JSON numbers up to serde_json's equality; -0.0 and 0.0 are one real. */
  datatype Number = Unsigned(n: nat) | Negative(z: int) | Float(r: real)

  /** serde_json::Value. An object is listed in its own iteration order. */
  datatype Value =
    | Null
    | Bool(b: bool)
    | Num(number: Number)
    | Text(s: string)
    | Array(items: seq<Value>)
    | Object(members: seq<Member>)

  datatype Member = Member(key: string, value: Value)

  datatype Json =
    | JNull
    | JBool(b: bool)
    | JNumber(number: Number)
    | JString(s: string)
    | JArray(items: seq<Json>)
    | JObject(entries: seq<Entry>)

  datatype Entry = Entry(key: string, value: Json)

  /** Keys are unique in every object, at every depth: serde_json's map establishes it. */
  ghost predicate UniqueKeys(j: Json) {
    match j
    case JArray(items) => forall i | 0 <= i < |items| :: UniqueKeys(items[i])
    case JObject(entries) =>
      && (forall i, k | 0 <= i < k < |entries| :: entries[i].key != entries[k].key)
      && forall i | 0 <= i < |entries| :: UniqueKeys(entries[i].value)
    case _ => true
  }

  ghost predicate UniqueMembers(v: Value) {
    match v
    case Array(items) => forall i | 0 <= i < |items| :: UniqueMembers(items[i])
    case Object(members) =>
      && (forall i, k | 0 <= i < k < |members| :: members[i].key != members[k].key)
      && forall i | 0 <= i < |members| :: UniqueMembers(members[i].value)
    case _ => true
  }

  // ---------- Conversion ----------

  function FromValue(v: Value): Json {
    match v
    case Null => JNull
    case Bool(b) => JBool(b)
    case Num(n) => JNumber(n)
    case Text(s) => JString(s)
    case Array(items) => JArray(seq(|items|, i requires 0 <= i < |items| => FromValue(items[i])))
    case Object(members) =>
      JObject(seq(|members|, i requires 0 <= i < |members| => Entry(members[i].key, FromValue(members[i].value))))
  }

  /** Inserting into a map: a known key keeps its place and takes the new value. */
  function InsertMember(members: seq<Member>, m: Member): seq<Member> {
    if members == [] then [m]
    else if members[0].key == m.key then [m] + members[1..]
    else [members[0]] + InsertMember(members[1..], m)
  }

  function ToValue(j: Json): Value {
    match j
    case JNull => Null
    case JBool(b) => Bool(b)
    case JNumber(n) => Num(n)
    case JString(s) => Text(s)
    case JArray(items) => Array(seq(|items|, i requires 0 <= i < |items| => ToValue(items[i])))
    case JObject(entries) => Object(CollectMembers(entries))
  }

  /** `collect` into a map: one insertion per entry. */
  function CollectMembers(entries: seq<Entry>): seq<Member> {
    if entries == [] then []
    else
      var last := entries[|entries| - 1];
      InsertMember(CollectMembers(entries[..|entries| - 1]), Member(last.key, ToValue(last.value)))
  }

  lemma {:induction false} InsertNewKeyAppends(members: seq<Member>, m: Member)
    requires forall i | 0 <= i < |members| :: members[i].key != m.key
    ensures InsertMember(members, m) == members + [m]
  {
    if members == [] {
    } else {
      InsertNewKeyAppends(members[1..], m);
    }
  }

  lemma {:induction false} CollectKeepsEntries(entries: seq<Entry>)
    requires forall i, k | 0 <= i < k < |entries| :: entries[i].key != entries[k].key
    ensures |CollectMembers(entries)| == |entries|
    ensures forall i | 0 <= i < |entries| ::
        CollectMembers(entries)[i] == Member(entries[i].key, ToValue(entries[i].value))
  {
    if entries == [] {
    } else {
      var rest := entries[..|entries| - 1];
      CollectKeepsEntries(rest);
      var last := entries[|entries| - 1];
      InsertNewKeyAppends(CollectMembers(rest), Member(last.key, ToValue(last.value)));
    }
  }

  /** Materializing a converted value gives the value back, order of members included. */
  lemma {:induction false} ToValueInvertsFromValue(v: Value)
    requires UniqueMembers(v)
    ensures UniqueKeys(FromValue(v)) && ToValue(FromValue(v)) == v
  {
    match v
    case Array(items) =>
      forall i | 0 <= i < |items| ensures UniqueKeys(FromValue(items[i])) && ToValue(FromValue(items[i])) == items[i] {
        ToValueInvertsFromValue(items[i]);
      }
    case Object(members) =>
      forall i | 0 <= i < |members|
        ensures UniqueKeys(FromValue(members[i].value)) && ToValue(FromValue(members[i].value)) == members[i].value
      {
        ToValueInvertsFromValue(members[i].value);
      }
      CollectKeepsEntries(FromValue(v).entries);
      assert ToValue(FromValue(v)).members == members;
    case _ =>
  }

  lemma {:induction false} FromValueInvertsToValue(j: Json)
    requires UniqueKeys(j)
    ensures UniqueMembers(ToValue(j)) && FromValue(ToValue(j)) == j
  {
    match j
    case JArray(items) =>
      forall i | 0 <= i < |items| ensures UniqueMembers(ToValue(items[i])) && FromValue(ToValue(items[i])) == items[i] {
        FromValueInvertsToValue(items[i]);
      }
    case JObject(entries) =>
      forall i | 0 <= i < |entries|
        ensures UniqueMembers(ToValue(entries[i].value)) && FromValue(ToValue(entries[i].value)) == entries[i].value
      {
        FromValueInvertsToValue(entries[i].value);
      }
      CollectKeepsEntries(entries);
      assert FromValue(ToValue(j)).entries == entries;
    case _ =>
  }

  // ---------- Equality ----------

  /** The derived equality, with the hand-written one for objects: same length, every entry found on the other side. */
  predicate JsonEq(a: Json, b: Json) {
    match (a, b)
    case (JNull, JNull) => true
    case (JBool(x), JBool(y)) => x == y
    case (JNumber(x), JNumber(y)) => x == y
    case (JString(x), JString(y)) => x == y
    case (JArray(x), JArray(y)) => |x| == |y| && forall i | 0 <= i < |x| :: JsonEq(x[i], y[i])
    case (JObject(x), JObject(y)) =>
      && |x| == |y|
      && forall i | 0 <= i < |x| :: FoundIn(x[i], y)
    case _ => false
  }

  /** The linear search for one entry. */
  predicate FoundIn(e: Entry, entries: seq<Entry>) {
    exists k | 0 <= k < |entries| :: e.key == entries[k].key && JsonEq(e.value, entries[k].value)
  }

  /** What a JSON value is: objects are maps. */
  datatype Meaning =
    | MNull
    | MBool(b: bool)
    | MNumber(number: Number)
    | MString(s: string)
    | MArray(items: seq<Meaning>)
    | MObject(members: map<string, Meaning>)

  function Denote(j: Json): Meaning {
    match j
    case JNull => MNull
    case JBool(b) => MBool(b)
    case JNumber(n) => MNumber(n)
    case JString(s) => MString(s)
    case JArray(items) => MArray(seq(|items|, i requires 0 <= i < |items| => Denote(items[i])))
    case JObject(entries) => MObject(DenoteEntries(entries))
  }

  function DenoteEntries(entries: seq<Entry>): map<string, Meaning> {
    if entries == [] then map[] else DenoteEntries(entries[1..])[entries[0].key := Denote(entries[0].value)]
  }

  /** What a value of the JSON library is. */
  function MeaningOf(v: Value): Meaning {
    match v
    case Null => MNull
    case Bool(b) => MBool(b)
    case Num(n) => MNumber(n)
    case Text(s) => MString(s)
    case Array(items) => MArray(seq(|items|, i requires 0 <= i < |items| => MeaningOf(items[i])))
    case Object(members) => MObject(MeaningOfMembers(members))
  }

  function MeaningOfMembers(members: seq<Member>): map<string, Meaning> {
    if members == [] then map[] else MeaningOfMembers(members[1..])[members[0].key := MeaningOf(members[0].value)]
  }

  /** Conversion keeps what a value is; with the round trips, so does materializing. */
  lemma {:induction false} ConversionKeepsMeaning(v: Value)
    ensures Denote(FromValue(v)) == MeaningOf(v)
  {
    match v
    case Array(items) =>
      forall i | 0 <= i < |items| ensures Denote(FromValue(items[i])) == MeaningOf(items[i]) {
        ConversionKeepsMeaning(items[i]);
      }
      var converted := FromValue(v).items;
      assert forall i | 0 <= i < |items| :: Denote(converted[i]) == MeaningOf(items[i]);
      assert Denote(FromValue(v)).items == MeaningOf(v).items;
    case Object(members) =>
      ConversionKeepsMembers(members, FromValue(v).entries);
    case _ =>
  }

  lemma {:induction false} ConversionKeepsMembers(members: seq<Member>, entries: seq<Entry>)
    requires |entries| == |members|
    requires forall i | 0 <= i < |members| :: entries[i] == Entry(members[i].key, FromValue(members[i].value))
    ensures DenoteEntries(entries) == MeaningOfMembers(members)
  {
    if members == [] {
    } else {
      ConversionKeepsMeaning(members[0].value);
      ConversionKeepsMembers(members[1..], entries[1..]);
    }
  }

  ghost predicate DistinctEntries(entries: seq<Entry>) {
    forall i, k | 0 <= i < k < |entries| :: entries[i].key != entries[k].key
  }

  lemma {:induction false} DenoteEntriesFinds(entries: seq<Entry>)
    requires DistinctEntries(entries)
    ensures forall i | 0 <= i < |entries| ::
        entries[i].key in DenoteEntries(entries) && DenoteEntries(entries)[entries[i].key] == Denote(entries[i].value)
    ensures forall key | key in DenoteEntries(entries) :: exists i | 0 <= i < |entries| :: entries[i].key == key
    ensures |DenoteEntries(entries).Keys| == |entries|
  {
    if entries == [] {
    } else {
      DenoteEntriesFinds(entries[1..]);
      FirstEntryIsNew(entries);
      EntriesAreMembers(entries);
      MembersAreEntries(entries);
    }
  }

  lemma EntriesAreMembers(entries: seq<Entry>)
    requires entries != [] && DistinctEntries(entries)
    requires var tail := entries[1..]; forall i | 0 <= i < |tail| ::
        tail[i].key in DenoteEntries(tail) && DenoteEntries(tail)[tail[i].key] == Denote(tail[i].value)
    ensures forall i | 0 <= i < |entries| ::
        entries[i].key in DenoteEntries(entries) && DenoteEntries(entries)[entries[i].key] == Denote(entries[i].value)
  {
    var tail := entries[1..];
    forall i | 0 <= i < |entries|
      ensures entries[i].key in DenoteEntries(entries)
      ensures DenoteEntries(entries)[entries[i].key] == Denote(entries[i].value)
    {
      if i > 0 { assert entries[i] == tail[i - 1] && entries[i].key != entries[0].key; }
    }
  }

  lemma MembersAreEntries(entries: seq<Entry>)
    requires entries != []
    requires forall key | key in DenoteEntries(entries[1..]) ::
        exists i | 0 <= i < |entries[1..]| :: entries[1..][i].key == key
    ensures forall key | key in DenoteEntries(entries) :: exists i | 0 <= i < |entries| :: entries[i].key == key
  {
    var tail := entries[1..];
    forall key | key in DenoteEntries(entries) ensures exists i | 0 <= i < |entries| :: entries[i].key == key {
      if key != entries[0].key {
        assert key in DenoteEntries(tail);
        var i :| 0 <= i < |tail| && tail[i].key == key;
        assert entries[i + 1].key == key;
      }
    }
  }

  lemma FirstEntryIsNew(entries: seq<Entry>)
    requires entries != [] && DistinctEntries(entries)
    requires forall key | key in DenoteEntries(entries[1..]) ::
        exists i | 0 <= i < |entries[1..]| :: entries[1..][i].key == key
    ensures entries[0].key !in DenoteEntries(entries[1..])
    ensures |DenoteEntries(entries).Keys| == |DenoteEntries(entries[1..]).Keys| + 1
  {
    var rest := DenoteEntries(entries[1..]);
    assert forall i | 0 <= i < |entries[1..]| :: entries[1..][i] == entries[i + 1];
    assert entries[0].key !in rest;
    assert DenoteEntries(entries).Keys == rest.Keys + {entries[0].key};
  }

  /** Pigeonhole: with as many keys on both sides, finding every left key on the right leaves no right key over. */
  lemma SameKeys(left: map<string, Meaning>, right: map<string, Meaning>)
    requires |left.Keys| == |right.Keys| && left.Keys <= right.Keys
    ensures left.Keys == right.Keys
  {
    assert |right.Keys - left.Keys| == |right.Keys| - |left.Keys|;
  }

  /** One-directional search decides exactly whether two values denote the same nested JSON value. */
  lemma {:induction false} EqualityIsMeaning(a: Json, b: Json)
    requires UniqueKeys(a) && UniqueKeys(b)
    ensures JsonEq(a, b) <==> Denote(a) == Denote(b)
  {
    match (a, b)
    case (JArray(x), JArray(y)) =>
      if |x| == |y| {
        forall i | 0 <= i < |x| ensures JsonEq(x[i], y[i]) <==> Denote(x[i]) == Denote(y[i]) {
          EqualityIsMeaning(x[i], y[i]);
        }
        assert forall i | 0 <= i < |x| :: Denote(a).items[i] == Denote(x[i]) && Denote(b).items[i] == Denote(y[i]);
      }
      assert |Denote(a).items| == |x| && |Denote(b).items| == |y|;
    case (JObject(x), JObject(y)) =>
      forall i, k | 0 <= i < |x| && 0 <= k < |y|
        ensures JsonEq(x[i].value, y[k].value) <==> Denote(x[i].value) == Denote(y[k].value)
      {
        EqualityIsMeaning(x[i].value, y[k].value);
      }
      ObjectEqualityIsMeaning(x, y);
    case _ =>
  }

  ghost predicate HasEntry(y: seq<Entry>, key: string, meaning: Meaning) {
    exists k | 0 <= k < |y| :: y[k].key == key && Denote(y[k].value) == meaning
  }

  lemma ObjectEqualityIsMeaning(x: seq<Entry>, y: seq<Entry>)
    requires DistinctEntries(x) && DistinctEntries(y)
    requires forall i, k | 0 <= i < |x| && 0 <= k < |y| ::
        JsonEq(x[i].value, y[k].value) <==> Denote(x[i].value) == Denote(y[k].value)
    ensures JsonEq(JObject(x), JObject(y)) <==> DenoteEntries(x) == DenoteEntries(y)
  {
    assert forall i | 0 <= i < |x| :: FoundIn(x[i], y) <==> HasEntry(y, x[i].key, Denote(x[i].value));
    SearchIsMapEquality(x, y);
  }

  lemma FoundEntriesAreMembers(x: seq<Entry>, y: seq<Entry>)
    requires DistinctEntries(x) && DistinctEntries(y)
    requires forall i | 0 <= i < |x| :: HasEntry(y, x[i].key, Denote(x[i].value))
    ensures var left, right := DenoteEntries(x), DenoteEntries(y);
      forall key | key in left :: key in right && left[key] == right[key]
  {
    DenoteEntriesFinds(x);
    DenoteEntriesFinds(y);
    forall key | key in DenoteEntries(x)
      ensures key in DenoteEntries(y) && DenoteEntries(x)[key] == DenoteEntries(y)[key]
    {
      var i :| 0 <= i < |x| && x[i].key == key;
      assert HasEntry(y, x[i].key, Denote(x[i].value));
    }
  }

  lemma SearchIsMapEquality(x: seq<Entry>, y: seq<Entry>)
    requires DistinctEntries(x) && DistinctEntries(y)
    ensures (|x| == |y| && forall i | 0 <= i < |x| :: HasEntry(y, x[i].key, Denote(x[i].value)))
      <==> DenoteEntries(x) == DenoteEntries(y)
  {
    var left, right := DenoteEntries(x), DenoteEntries(y);
    DenoteEntriesFinds(x);
    DenoteEntriesFinds(y);
    if |x| == |y| && forall i | 0 <= i < |x| :: HasEntry(y, x[i].key, Denote(x[i].value)) {
      FoundEntriesAreMembers(x, y);
      SameKeys(left, right);
    }
    if left == right {
      forall i | 0 <= i < |x| ensures HasEntry(y, x[i].key, Denote(x[i].value)) {
        var k :| 0 <= k < |y| && y[k].key == x[i].key;
      }
    }
  }

  lemma EqualityIsAnEquivalence(a: Json, b: Json, c: Json)
    requires UniqueKeys(a) && UniqueKeys(b) && UniqueKeys(c)
    ensures JsonEq(a, a)
    ensures JsonEq(a, b) ==> JsonEq(b, a)
    ensures JsonEq(a, b) && JsonEq(b, c) ==> JsonEq(a, c)
  {
    EqualityIsMeaning(a, a);
    EqualityIsMeaning(a, b);
    EqualityIsMeaning(b, a);
    EqualityIsMeaning(b, c);
    EqualityIsMeaning(a, c);
  }

  // ---------- Hashing ----------

  /** One write into the hasher. A number's write is a word that does not say which kind of number it came from. */
  datatype Token = Variant(index: nat) | Length(n: nat) | Flag(b: bool) | Word(n: nat) | Chars(s: string)

  /** The word a number library writes for a number. */
  type Words = Number -> nat

  function EntryKey(e: Entry): string {
    e.key
  }

  function SortedEntries(entries: seq<Entry>): seq<Entry> {
    SortByKey(entries, EntryKey, StringLeq)
  }

  lemma {:induction false} SortedEntriesMembers(entries: seq<Entry>)
    ensures |SortedEntries(entries)| == |entries|
    ensures forall e :: e in SortedEntries(entries) <==> e in entries
  {
    var sorted := SortedEntries(entries);
    StringOrder();
    SortSorts(entries, EntryKey, StringLeq);
    assert |multiset(sorted)| == |multiset(entries)|;
    forall e ensures e in sorted <==> e in entries { assert e in multiset(sorted) <==> e in multiset(entries); }
  }

  /** The sequence of writes that hashing makes. */
  function HashFeed(j: Json, bits: Words): seq<Token>
    decreases j, 1, 0
  {
    match j
    case JNull => [Variant(0)]
    case JBool(b) => [Variant(1), Flag(b)]
    case JNumber(n) => [Variant(2), Word(bits(n))]
    case JString(s) => [Variant(3), Chars(s)]
    case JArray(items) => [Variant(4), Length(|items|)] + FeedItems(items, bits)
    case JObject(entries) =>
      SortedEntriesMembers(entries);
      [Variant(5), Length(|entries|)] + FeedEntries(SortedEntries(entries), j, bits)
  }

  function FeedItems(items: seq<Json>, bits: Words): seq<Token> {
    if items == [] then [] else HashFeed(items[0], bits) + FeedItems(items[1..], bits)
  }

  function FeedEntries(entries: seq<Entry>, ghost owner: Json, bits: Words): seq<Token>
    requires owner.JObject? && forall e | e in entries :: e in owner.entries
    decreases owner, 0, |entries|
  {
    if entries == [] then []
    else
      assert entries[0] in owner.entries;
      [Chars(entries[0].key)] + HashFeed(entries[0].value, bits) + FeedEntries(entries[1..], owner, bits)
  }

  /** Equal values make the same writes, whatever the order of their entries. */
  lemma {:induction false} EqualValuesHashAlike(a: Json, b: Json, bits: Words)
    requires UniqueKeys(a) && UniqueKeys(b) && JsonEq(a, b)
    ensures HashFeed(a, bits) == HashFeed(b, bits)
    decreases a, 1, 0
  {
    match (a, b)
    case (JArray(x), JArray(y)) => EqualItemsHashAlike(x, y, bits);
    case (JObject(x), JObject(y)) =>
      SortedEntriesMembers(x);
      SortedEntriesMembers(y);
      SortedEntriesLineUp(a, b);
      EqualEntriesHashAlike(SortedEntries(x), SortedEntries(y), a, b, bits);
    case _ =>
  }

  lemma {:induction false} EqualItemsHashAlike(x: seq<Json>, y: seq<Json>, bits: Words)
    requires |x| == |y|
    requires forall i | 0 <= i < |x| :: UniqueKeys(x[i]) && UniqueKeys(y[i]) && JsonEq(x[i], y[i])
    ensures FeedItems(x, bits) == FeedItems(y, bits)
    decreases x, 0, 0
  {
    if x == [] {
    } else {
      EqualValuesHashAlike(x[0], y[0], bits);
      EqualItemsHashAlike(x[1..], y[1..], bits);
    }
  }

  /** Same position after sorting, same key and equal value. */
  ghost predicate LinedUp(x: seq<Entry>, y: seq<Entry>) {
    |x| == |y| && forall i | 0 <= i < |x| ::
      && x[i].key == y[i].key && JsonEq(x[i].value, y[i].value)
      && UniqueKeys(x[i].value) && UniqueKeys(y[i].value)
  }

  lemma {:induction false} EqualEntriesHashAlike(x: seq<Entry>, y: seq<Entry>, a: Json, b: Json, bits: Words)
    requires a.JObject? && b.JObject?
    requires forall e | e in x :: e in a.entries
    requires forall e | e in y :: e in b.entries
    requires LinedUp(x, y)
    ensures FeedEntries(x, a, bits) == FeedEntries(y, b, bits)
    decreases a, 0, |x|
  {
    if x == [] {
    } else {
      assert x[0] in a.entries;
      EqualValuesHashAlike(x[0].value, y[0].value, bits);
      EqualEntriesHashAlike(x[1..], y[1..], a, b, bits);
    }
  }

  function Keys(entries: seq<Entry>): seq<string> {
    seq(|entries|, i requires 0 <= i < |entries| => entries[i].key)
  }

  lemma SortedEntriesLineUp(a: Json, b: Json)
    requires a.JObject? && b.JObject? && UniqueKeys(a) && UniqueKeys(b) && JsonEq(a, b)
    ensures LinedUp(SortedEntries(a.entries), SortedEntries(b.entries))
  {
    var x, y := SortedEntries(a.entries), SortedEntries(b.entries);
    SortedKeys(a.entries);
    SortedKeys(b.entries);
    StringOrder();
    EqualityIsMeaning(a, b);
    StrictlyAscendingUnique(Keys(x), Keys(y), StringLeq);
    assert |Keys(x)| == |x| && |Keys(y)| == |y|;
    forall i | 0 <= i < |x|
      ensures x[i].key == y[i].key && JsonEq(x[i].value, y[i].value) && UniqueKeys(x[i].value) && UniqueKeys(y[i].value)
    {
      assert Keys(x)[i] == Keys(y)[i];
      SortedEntriesMembers(a.entries);
      SortedEntriesMembers(b.entries);
      assert x[i] in a.entries && y[i] in b.entries;
      DenoteEntriesFinds(a.entries);
      DenoteEntriesFinds(b.entries);
      EqualityIsMeaning(x[i].value, y[i].value);
    }
  }

  /** After sorting, the keys ascend strictly and are the keys the object denotes. */
  lemma SortedKeys(entries: seq<Entry>)
    requires DistinctEntries(entries)
    ensures StrictlyAscending(Keys(SortedEntries(entries)), StringLeq)
    ensures forall k :: k in Keys(SortedEntries(entries)) <==> k in DenoteEntries(entries)
  {
    StringOrder();
    SortStrict(entries, EntryKey, StringLeq);
    KeysOfMembers(entries, SortedEntries(entries));
  }

  /** A rearrangement of an object's entries has the keys the object denotes. */
  lemma KeysOfMembers(entries: seq<Entry>, sorted: seq<Entry>)
    requires DistinctEntries(entries) && forall e :: e in sorted <==> e in entries
    ensures forall k :: k in Keys(sorted) <==> k in DenoteEntries(entries)
  {
    DenoteEntriesFinds(entries);
    forall k ensures k in Keys(sorted) <==> k in DenoteEntries(entries) {
      if k in Keys(sorted) {
        var i :| 0 <= i < |sorted| && Keys(sorted)[i] == k;
        assert sorted[i] in entries;
      }
      if k in DenoteEntries(entries) {
        var i :| 0 <= i < |entries| && entries[i].key == k;
        assert entries[i] in sorted;
        var m :| 0 <= m < |sorted| && sorted[m] == entries[i];
        assert Keys(sorted)[m] == k;
      }
    }
  }

  // ---------- What hashing can lose ----------

  ghost function NumbersOf(j: Json): set<Number> {
    match j
    case JNumber(n) => {n}
    case JArray(items) => set i, n | 0 <= i < |items| && n in NumbersOf(items[i]) :: n
    case JObject(entries) => set i, n | 0 <= i < |entries| && n in NumbersOf(entries[i].value) :: n
    case _ => {}
  }

  /** No number of one value shares its word with another number of the other. */
  ghost predicate TellsApart(bits: Words, a: Json, b: Json) {
    forall n, m | n in NumbersOf(a) && m in NumbersOf(b) :: bits(n) == bits(m) ==> n == m
  }

  /** Writes of one length at the front of equal feeds are equal, and so is the rest. */
  lemma SplitFeeds(p: seq<Token>, q: seq<Token>, s: seq<Token>, t: seq<Token>)
    requires |p| == |q| && p + s == q + t
    ensures p == q && s == t
  {
    assert p == (p + s)[..|p|] && q == (q + t)[..|q|];
    assert s == (p + s)[|p|..] && t == (q + t)[|q|..];
  }

  /** The writes of a value, whatever follows them, come from no other value whose numbers have other words. */
  lemma {:induction false} FeedsDecode(a: Json, b: Json, s: seq<Token>, t: seq<Token>, bits: Words)
    requires UniqueKeys(a) && UniqueKeys(b) && TellsApart(bits, a, b)
    requires HashFeed(a, bits) + s == HashFeed(b, bits) + t
    ensures JsonEq(a, b) && s == t
    decreases a, 1, 0
  {
    assert HashFeed(a, bits)[0] == (HashFeed(a, bits) + s)[0] == (HashFeed(b, bits) + t)[0] == HashFeed(b, bits)[0];
    match (a, b)
    case (JArray(x), JArray(y)) =>
      var p, q := [Variant(4), Length(|x|)], [Variant(4), Length(|y|)];
      AppendAssociative(p, FeedItems(x, bits), s);
      AppendAssociative(q, FeedItems(y, bits), t);
      SplitFeeds(p, q, FeedItems(x, bits) + s, FeedItems(y, bits) + t);
      assert p[1] == q[1];
      ItemFeedsDecode(x, y, s, t, bits);
    case (JObject(x), JObject(y)) =>
      SortedEntriesMembers(x);
      SortedEntriesMembers(y);
      ObjectFeedsSplit(a, b, s, t, bits);
      MembersAreUnique(a);
      MembersAreUnique(b);
      MembersAreToldApart(a, b, bits);
      EntryFeedsDecode(SortedEntries(x), SortedEntries(y), a, b, s, t, bits);
      LinedUpObjectsAreEqual(x, y);
    case _ =>
      SplitFeeds(HashFeed(a, bits), HashFeed(b, bits), s, t);
      LeavesDecode(a, b, bits);
  }

  lemma LeavesDecode(a: Json, b: Json, bits: Words)
    requires !a.JArray? && !a.JObject? && TellsApart(bits, a, b) && HashFeed(a, bits) == HashFeed(b, bits)
    ensures JsonEq(a, b)
  {
    assert HashFeed(a, bits)[0] == HashFeed(b, bits)[0];
    assert |HashFeed(a, bits)| > 1 ==> HashFeed(a, bits)[1] == HashFeed(b, bits)[1];
  }

  lemma {:induction false} ItemFeedsDecode(x: seq<Json>, y: seq<Json>, s: seq<Token>, t: seq<Token>, bits: Words)
    requires |x| == |y|
    requires forall i | 0 <= i < |x| :: UniqueKeys(x[i]) && UniqueKeys(y[i]) && TellsApart(bits, x[i], y[i])
    requires FeedItems(x, bits) + s == FeedItems(y, bits) + t
    ensures (forall i | 0 <= i < |x| :: JsonEq(x[i], y[i])) && s == t
    decreases x, 0, 0
  {
    if x == [] {
      assert s == [] + s && t == [] + t;
    } else {
      AppendAssociative(HashFeed(x[0], bits), FeedItems(x[1..], bits), s);
      AppendAssociative(HashFeed(y[0], bits), FeedItems(y[1..], bits), t);
      FeedsDecode(x[0], y[0], FeedItems(x[1..], bits) + s, FeedItems(y[1..], bits) + t, bits);
      ItemFeedsDecode(x[1..], y[1..], s, t, bits);
      forall i | 0 <= i < |x| ensures JsonEq(x[i], y[i]) {
        if i > 0 { assert x[i] == x[1..][i - 1] && y[i] == y[1..][i - 1]; }
      }
    }
  }

  lemma ObjectFeedsSplit(a: Json, b: Json, s: seq<Token>, t: seq<Token>, bits: Words)
    requires a.JObject? && b.JObject? && HashFeed(a, bits) + s == HashFeed(b, bits) + t
    requires forall e | e in SortedEntries(a.entries) :: e in a.entries
    requires forall e | e in SortedEntries(b.entries) :: e in b.entries
    ensures |a.entries| == |b.entries|
    ensures FeedEntries(SortedEntries(a.entries), a, bits) + s == FeedEntries(SortedEntries(b.entries), b, bits) + t
  {
    var p, q := [Variant(5), Length(|a.entries|)], [Variant(5), Length(|b.entries|)];
    var f, g := FeedEntries(SortedEntries(a.entries), a, bits), FeedEntries(SortedEntries(b.entries), b, bits);
    AppendAssociative(p, f, s);
    AppendAssociative(q, g, t);
    SplitFeeds(p, q, f + s, g + t);
    assert p[1] == q[1];
  }

  lemma MembersAreUnique(a: Json)
    requires a.JObject? && UniqueKeys(a)
    ensures forall e | e in SortedEntries(a.entries) :: UniqueKeys(e.value)
  {
    SortedEntriesMembers(a.entries);
  }

  lemma MembersAreToldApart(a: Json, b: Json, bits: Words)
    requires a.JObject? && b.JObject? && TellsApart(bits, a, b)
    ensures var x, y := SortedEntries(a.entries), SortedEntries(b.entries);
      forall i | 0 <= i < |x| && i < |y| :: TellsApart(bits, x[i].value, y[i].value)
  {
    var x, y := SortedEntries(a.entries), SortedEntries(b.entries);
    SortedEntriesMembers(a.entries);
    SortedEntriesMembers(b.entries);
    forall i | 0 <= i < |x| && i < |y| ensures TellsApart(bits, x[i].value, y[i].value) {
      assert x[i] in a.entries && y[i] in b.entries;
    }
  }

  lemma {:induction false} EntryFeedsDecode(x: seq<Entry>, y: seq<Entry>, a: Json, b: Json,
                                            s: seq<Token>, t: seq<Token>, bits: Words)
    requires a.JObject? && b.JObject? && |x| == |y|
    requires forall e | e in x :: e in a.entries && UniqueKeys(e.value)
    requires forall e | e in y :: e in b.entries && UniqueKeys(e.value)
    requires forall i | 0 <= i < |x| :: TellsApart(bits, x[i].value, y[i].value)
    requires FeedEntries(x, a, bits) + s == FeedEntries(y, b, bits) + t
    ensures LinedUp(x, y) && s == t
    decreases a, 0, |x|
  {
    if x == [] {
      assert s == [] + s && t == [] + t;
    } else {
      assert x[0] in a.entries && y[0] in b.entries;
      FirstEntrySplits(x, a, s, bits);
      FirstEntrySplits(y, b, t, bits);
      SplitFeeds([Chars(x[0].key)], [Chars(y[0].key)],
                 HashFeed(x[0].value, bits) + (FeedEntries(x[1..], a, bits) + s),
                 HashFeed(y[0].value, bits) + (FeedEntries(y[1..], b, bits) + t));
      assert [Chars(x[0].key)][0] == [Chars(y[0].key)][0];
      FeedsDecode(x[0].value, y[0].value, FeedEntries(x[1..], a, bits) + s, FeedEntries(y[1..], b, bits) + t, bits);
      EntryFeedsDecode(x[1..], y[1..], a, b, s, t, bits);
      forall i | 0 <= i < |x| ensures x[i].key == y[i].key && JsonEq(x[i].value, y[i].value) {
        if i > 0 { assert x[i] == x[1..][i - 1] && y[i] == y[1..][i - 1]; }
      }
      assert forall i | 0 <= i < |x| :: x[i] in x && y[i] in y;
    }
  }

  lemma FirstEntrySplits(x: seq<Entry>, a: Json, s: seq<Token>, bits: Words)
    requires a.JObject? && x != [] && forall e | e in x :: e in a.entries
    ensures FeedEntries(x, a, bits) + s
         == [Chars(x[0].key)] + (HashFeed(x[0].value, bits) + (FeedEntries(x[1..], a, bits) + s))
  {
    var k, v, rest := [Chars(x[0].key)], HashFeed(x[0].value, bits), FeedEntries(x[1..], a, bits);
    AppendAssociative(k + v, rest, s);
    AppendAssociative(k, v, rest + s);
  }

  lemma LinedUpObjectsAreEqual(x: seq<Entry>, y: seq<Entry>)
    requires LinedUp(SortedEntries(x), SortedEntries(y))
    ensures JsonEq(JObject(x), JObject(y))
  {
    SortedEntriesMembers(x);
    SortedEntriesMembers(y);
    forall i | 0 <= i < |x| ensures FoundIn(x[i], y) {
      assert x[i] in SortedEntries(x);
      var m :| 0 <= m < |x| && SortedEntries(x)[m] == x[i];
      assert SortedEntries(y)[m] in y;
      var k :| 0 <= k < |y| && y[k] == SortedEntries(y)[m];
      assert x[i].key == y[k].key && JsonEq(x[i].value, y[k].value);
    }
  }

  /** Where words tell their numbers apart, two values are equal if and only if they make the same writes. */
  lemma HashFeedDecidesEquality(a: Json, b: Json, bits: Words)
    requires UniqueKeys(a) && UniqueKeys(b) && TellsApart(bits, a, b)
    ensures JsonEq(a, b) <==> HashFeed(a, bits) == HashFeed(b, bits)
  {
    if JsonEq(a, b) {
      EqualValuesHashAlike(a, b, bits);
    }
    if HashFeed(a, bits) == HashFeed(b, bits) {
      FeedsDecode(a, b, [], [], bits);
    }
  }

  /** Unequal values that make the same writes hold different numbers with the same word. */
  lemma CollisionsComeFromNumbers(a: Json, b: Json, bits: Words) returns (n: Number, m: Number)
    requires UniqueKeys(a) && UniqueKeys(b) && !JsonEq(a, b) && HashFeed(a, bits) == HashFeed(b, bits)
    ensures n in NumbersOf(a) && m in NumbersOf(b) && n != m && bits(n) == bits(m)
  {
    assert !TellsApart(bits, a, b) by {
      if TellsApart(bits, a, b) {
        FeedsDecode(a, b, [], [], bits);
      }
    }
    n, m :| n in NumbersOf(a) && m in NumbersOf(b) && bits(n) == bits(m) && n != m;
  }

  // ---------- Equality up to words ----------

  /** Every number replaced by its word. */
  function Blur(j: Json, bits: Words): Json {
    match j
    case JNumber(n) => JNumber(Unsigned(bits(n)))
    case JArray(items) => JArray(BlurItems(items, bits))
    case JObject(entries) => JObject(BlurEntries(entries, bits))
    case _ => j
  }

  function BlurItems(items: seq<Json>, bits: Words): seq<Json> {
    seq(|items|, i requires 0 <= i < |items| => Blur(items[i], bits))
  }

  function BlurEntries(entries: seq<Entry>, bits: Words): seq<Entry> {
    seq(|entries|, i requires 0 <= i < |entries| => BlurEntry(entries[i], bits))
  }

  function BlurEntry(e: Entry, bits: Words): Entry {
    Entry(e.key, Blur(e.value, bits))
  }

  /** The word of a number that has been replaced by its word. */
  function OwnWord(n: Number): nat {
    if n.Unsigned? then n.n else 0
  }

  lemma EntriesBlurred(entries: seq<Entry>, bits: Words)
    ensures |BlurEntries(entries, bits)| == |entries|
    ensures forall i | 0 <= i < |entries| :: BlurEntries(entries, bits)[i].key == entries[i].key
    ensures forall i | 0 <= i < |entries| :: BlurEntries(entries, bits)[i].value == Blur(entries[i].value, bits)
  {
  }

  lemma {:induction false} BlurKeepsKeys(j: Json, bits: Words)
    requires UniqueKeys(j)
    ensures UniqueKeys(Blur(j, bits)) && forall n | n in NumbersOf(Blur(j, bits)) :: n.Unsigned?
  {
    match j
    case JArray(items) =>
      forall i | 0 <= i < |items|
        ensures UniqueKeys(Blur(items[i], bits)) && forall n | n in NumbersOf(Blur(items[i], bits)) :: n.Unsigned?
      {
        BlurKeepsKeys(items[i], bits);
      }
    case JObject(entries) =>
      forall i | 0 <= i < |entries|
        ensures UniqueKeys(Blur(entries[i].value, bits))
        ensures forall n | n in NumbersOf(Blur(entries[i].value, bits)) :: n.Unsigned?
      {
        BlurKeepsKeys(entries[i].value, bits);
      }
      EntriesBlurred(entries, bits);
      assert Blur(j, bits).entries == BlurEntries(entries, bits);
    case _ =>
  }

  lemma {:induction false} InsertBlurred(e: Entry, entries: seq<Entry>, bits: Words)
    ensures InsertByKey(BlurEntry(e, bits), BlurEntries(entries, bits), EntryKey, StringLeq)
         == BlurEntries(InsertByKey(e, entries, EntryKey, StringLeq), bits)
  {
    var blurred := BlurEntries(entries, bits);
    if entries == [] {
      assert blurred == [];
    } else if StringLeq(e.key, entries[0].key) {
      assert [BlurEntry(e, bits)] + blurred == BlurEntries([e] + entries, bits);
    } else {
      InsertBlurred(e, entries[1..], bits);
      assert blurred[1..] == BlurEntries(entries[1..], bits);
      var rest := InsertByKey(e, entries[1..], EntryKey, StringLeq);
      assert [blurred[0]] + BlurEntries(rest, bits) == BlurEntries([entries[0]] + rest, bits);
    }
  }

  lemma {:induction false} SortBlurred(entries: seq<Entry>, bits: Words)
    ensures SortedEntries(BlurEntries(entries, bits)) == BlurEntries(SortedEntries(entries), bits)
  {
    if entries == [] {
    } else {
      SortBlurred(entries[1..], bits);
      assert BlurEntries(entries, bits)[1..] == BlurEntries(entries[1..], bits);
      InsertBlurred(entries[0], SortedEntries(entries[1..]), bits);
    }
  }

  /** Hashing sees no more of a number than its word. */
  lemma {:induction false} BlurKeepsFeed(j: Json, bits: Words)
    ensures HashFeed(Blur(j, bits), OwnWord) == HashFeed(j, bits)
    decreases j, 1, 0
  {
    match j
    case JArray(items) => BlurKeepsItemFeed(items, bits);
    case JObject(entries) =>
      SortBlurred(entries, bits);
      SortedEntriesMembers(entries);
      SortedEntriesMembers(BlurEntries(entries, bits));
      BlurKeepsEntryFeed(SortedEntries(entries), j, bits);
    case _ =>
  }

  lemma {:induction false} BlurKeepsItemFeed(items: seq<Json>, bits: Words)
    ensures FeedItems(BlurItems(items, bits), OwnWord) == FeedItems(items, bits)
    decreases items, 0, 0
  {
    if items == [] {
    } else {
      BlurKeepsFeed(items[0], bits);
      BlurKeepsItemFeed(items[1..], bits);
      assert BlurItems(items, bits)[1..] == BlurItems(items[1..], bits);
    }
  }

  lemma {:induction false} BlurKeepsEntryFeed(x: seq<Entry>, j: Json, bits: Words)
    requires j.JObject? && forall e | e in x :: e in j.entries
    ensures forall e | e in BlurEntries(x, bits) :: e in Blur(j, bits).entries
    ensures FeedEntries(BlurEntries(x, bits), Blur(j, bits), OwnWord) == FeedEntries(x, j, bits)
    decreases j, 0, |x|
  {
    BlurredMembers(x, j, bits);
    if x == [] {
    } else {
      assert x[0] in j.entries;
      BlurKeepsFeed(x[0].value, bits);
      BlurKeepsEntryFeed(x[1..], j, bits);
      assert BlurEntries(x, bits)[1..] == BlurEntries(x[1..], bits);
    }
  }

  lemma BlurredMembers(x: seq<Entry>, j: Json, bits: Words)
    requires j.JObject? && forall e | e in x :: e in j.entries
    ensures forall e | e in BlurEntries(x, bits) :: e in Blur(j, bits).entries
  {
    forall e | e in BlurEntries(x, bits) ensures e in Blur(j, bits).entries {
      var i :| 0 <= i < |x| && BlurEntries(x, bits)[i] == e;
      assert x[i] in j.entries;
      var k :| 0 <= k < |j.entries| && j.entries[k] == x[i];
      assert Blur(j, bits).entries[k] == e;
    }
  }

  /** For any words at all: two values make the same writes if and only if they are equal up to words. */
  lemma FeedsAgreeUpToWords(a: Json, b: Json, bits: Words)
    requires UniqueKeys(a) && UniqueKeys(b)
    ensures HashFeed(a, bits) == HashFeed(b, bits) <==> JsonEq(Blur(a, bits), Blur(b, bits))
  {
    BlurKeepsFeed(a, bits);
    BlurKeepsFeed(b, bits);
    BlurKeepsKeys(a, bits);
    BlurKeepsKeys(b, bits);
    HashFeedDecidesEquality(Blur(a, bits), Blur(b, bits), OwnWord);
  }

  // ---------- Numbers that do collide ----------

  /** serde_json's words: an integer's 64 bits, or a float's, with both zeros as one. */
  function LibraryWord(n: Number, floatBits: real -> nat): nat {
    match n
    case Unsigned(u) => u
    case Negative(z) => z % 0x1_0000_0000_0000_0000
    case Float(r) => if r == 0.0 then 0 else floatBits(r)
  }

  /** The integer zero and the zero of floats are unequal and make the same writes. */
  lemma ZerosCollide(floatBits: real -> nat)
    ensures var zero, floatZero := JNumber(Unsigned(0)), JNumber(Float(0.0));
      && !JsonEq(zero, floatZero)
      && HashFeed(zero, n => LibraryWord(n, floatBits)) == HashFeed(floatZero, n => LibraryWord(n, floatBits))
  {
    assert HashFeed(JNumber(Unsigned(0)), n => LibraryWord(n, floatBits)) == [Variant(2), Word(0)];
  }
}
