/** Topic binding keys and snapshots: normalisation, serialisation and defensive cloning. */
module TopicBinding {
  import opened Common
  import opened UriComponent

  // ----- trimmed required strings -----

  predicate IsSpaceUnit(u: CodeUnit) {
    IsSpaceCode(u)
  }

  function Trim(s: Text): Text {
    TrimBy(IsSpaceUnit, s)
  }

  datatype Failure = TypeError | UriError

  function RequiredText(s: Text): Result<Text, Failure> {
    if Trim(s) == [] then Err(TypeError) else Ok(Trim(s))
  }

  // ----- keys -----

  datatype Key = Key(workspaceId: Text, channelId: Text, topicId: Text)

  function CreateKey(input: Key): Result<Key, Failure> {
    match (RequiredText(input.workspaceId), RequiredText(input.channelId), RequiredText(input.topicId))
    case (Ok(workspace), Ok(channel), Ok(topic)) => Ok(Key(workspace, channel, topic))
    case _ => Err(TypeError)
  }

  /** `topic-binding:workspace=...:channel=...:topic=...` for an already normalised key. */
  function Format(key: Key): Result<string, Failure> {
    match (Encode(key.workspaceId), Encode(key.channelId), Encode(key.topicId))
    case (Some(workspace), Some(channel), Some(topic)) =>
      Ok(Join(':', FormatPieces(workspace, channel, topic)))
    case _ => Err(UriError)
  }

  function FormatPieces(workspace: string, channel: string, topic: string): seq<string> {
    ["topic-binding", "workspace=" + workspace, "channel=" + channel, "topic=" + topic]
  }

  function SerializeKey(input: Key): Result<string, Failure> {
    match CreateKey(input)
    case Err(e) => Err(e)
    case Ok(key) => Format(key)
  }

  lemma CreateKeyIsIdempotent(input: Key)
    requires CreateKey(input).Ok?
    ensures CreateKey(CreateKey(input).value) == CreateKey(input)
  {
    TrimIsIdempotent(IsSpaceUnit, input.workspaceId);
    TrimIsIdempotent(IsSpaceUnit, input.channelId);
    TrimIsIdempotent(IsSpaceUnit, input.topicId);
  }

  lemma FormatParts(key: Key)
    requires Format(key).Ok?
    ensures Split(':', Format(key).value) ==
            FormatPieces(Encode(key.workspaceId).value, Encode(key.channelId).value, Encode(key.topicId).value)
  {
    EncodedHasNoSeparator(key.workspaceId);
    EncodedHasNoSeparator(key.channelId);
    EncodedHasNoSeparator(key.topicId);
    hide Encode, Split, Join;
    var w, c, t := Encode(key.workspaceId).value, Encode(key.channelId).value, Encode(key.topicId).value;
    SplitJoin(':', FormatPieces(w, c, t));
  }

  lemma PrefixCancels(prefix: string, s: string, t: string)
    requires prefix + s == prefix + t
    ensures s == t
  {
    assert s == (prefix + s)[|prefix|..] && t == (prefix + t)[|prefix|..];
  }

  /** The serialised key determines all three normalised components. */
  lemma FormatIsInjective(a: Key, b: Key)
    requires Format(a).Ok? && Format(a) == Format(b)
    ensures a == b
  {
    FormatParts(a);
    FormatParts(b);
    hide Format;
    var x, y := Split(':', Format(a).value), Split(':', Format(b).value);
    assert x[1] == y[1] && x[2] == y[2] && x[3] == y[3];
    PrefixCancels("workspace=", Encode(a.workspaceId).value, Encode(b.workspaceId).value);
    PrefixCancels("channel=", Encode(a.channelId).value, Encode(b.channelId).value);
    PrefixCancels("topic=", Encode(a.topicId).value, Encode(b.topicId).value);
    EncodeIsInjective(a.workspaceId, b.workspaceId);
    EncodeIsInjective(a.channelId, b.channelId);
    EncodeIsInjective(a.topicId, b.topicId);
  }

  /** A serialised key read back: its pieces decode to the trimmed components, in order. */
  lemma SerializedReads(input: Key)
    requires SerializeKey(input).Ok?
    ensures var pieces := Split(':', SerializeKey(input).value);
            && |pieces| == 4 && pieces[0] == "topic-binding"
            && "workspace=" <= pieces[1] && Decode(pieces[1][10..]) == Trim(input.workspaceId)
            && "channel=" <= pieces[2] && Decode(pieces[2][8..]) == Trim(input.channelId)
            && "topic=" <= pieces[3] && Decode(pieces[3][6..]) == Trim(input.topicId)
  {
    var key := CreateKey(input).value;
    FormatParts(key);
    hide Split, Decode, Trim;
    var w, c, t := Encode(key.workspaceId).value, Encode(key.channelId).value, Encode(key.topicId).value;
    hide Encode;
    DecodeEncode(key.workspaceId);
    DecodeEncode(key.channelId);
    DecodeEncode(key.topicId);
    assert ("workspace=" + w)[10..] == w && ("channel=" + c)[8..] == c && ("topic=" + t)[6..] == t;
  }

  /** Two inputs serialise alike exactly when they normalise alike. */
  lemma SerializedKeysAgreeExactly(a: Key, b: Key)
    requires SerializeKey(a).Ok? && SerializeKey(b).Ok?
    ensures SerializeKey(a) == SerializeKey(b) <==> CreateKey(a) == CreateKey(b)
  {
    if SerializeKey(a) == SerializeKey(b) {
      FormatIsInjective(CreateKey(a).value, CreateKey(b).value);
    }
  }

  /** Serialisation succeeds exactly on non-blank components of well-formed UTF-16. */
  lemma SerializesExactly(input: Key)
    ensures SerializeKey(input).Ok? <==>
            CreateKey(input).Ok? && WellFormed(Trim(input.workspaceId)) && WellFormed(Trim(input.channelId)) &&
            WellFormed(Trim(input.topicId))
  {
    EncodesExactlyWellFormed(Trim(input.workspaceId));
    EncodesExactlyWellFormed(Trim(input.channelId));
    EncodesExactlyWellFormed(Trim(input.topicId));
  }

  // ----- metadata -----

  /**
   Metadata as the cloner meets it; `NotJson` is a non-finite number, undefined, a function and the like.
   The names of a record's own fields are distinct.
   */
  datatype Metadata =
    | Null
    | Scalar(text: Text)
    | NotJson
    | List(items: seq<Metadata>)
    | Record(prototype: Prototype, fields: seq<Field>)

  datatype Field = Field(name: Text, value: Metadata)

  /** Object.prototype or none at all, an installed object, or anything else. */
  datatype Prototype = Plain | Installed(frozen: Metadata) | Exotic

  const PROTO: Text := [95, 95, 112, 114, 111, 116, 111, 95, 95]
  const LENGTH: Text := [108, 101, 110, 103, 116, 104]

  predicate IsObject(m: Metadata) {
    m.List? || m.Record?
  }

  predicate HasField(fields: seq<Field>, name: Text) {
    exists i | 0 <= i < |fields| :: fields[i].name == name
  }

  function IndexText(n: nat): Text {
    if n < 10 then [48 + n] else IndexText(n / 10) + [48 + n % 10]
  }

  /** The number that decimal digits stand for. */
  function NumberOf(name: Text): int {
    if name == [] then 0 else 10 * NumberOf(name[..|name| - 1]) + (name[|name| - 1] as int - 48)
  }

  lemma {:induction false} IndexReads(n: nat)
    ensures NumberOf(IndexText(n)) == n && IndexText(n) != []
    ensures forall i | 0 <= i < |IndexText(n)| :: 48 <= IndexText(n)[i] <= 57
    ensures n > 0 ==> IndexText(n)[0] != 48
  {
    if n >= 10 {
      IndexReads(n / 10);
      assert IndexText(n)[..|IndexText(n)| - 1] == IndexText(n / 10);
    }
  }

  lemma {:induction false} IndexIsInjective(i: nat, j: nat)
    requires IndexText(i) == IndexText(j)
    ensures i == j
  {
    IndexReads(i);
    IndexReads(j);
  }

  /** A frozen array owns exactly the indices below its length, and the name of the length. */
  lemma ArrayOwnsExactly(i: nat, n: nat)
    ensures ArrayOwns(IndexText(i), n) <==> i < n
    ensures ArrayOwns(LENGTH, n)
  {
    IndexReads(i);
    assert LENGTH[0] == 108;
    assert IndexText(i) != LENGTH;
    forall j: nat | j < n && IndexText(j) == IndexText(i)
      ensures i == j
    {
      IndexIsInjective(i, j);
    }
  }

  /** The two names spelled out. */
  lemma NamesSpelled()
    ensures |PROTO| == 9 && forall i | 0 <= i < 9 :: PROTO[i] == "__proto__"[i] as int
    ensures |LENGTH| == 6 && forall i | 0 <= i < 6 :: LENGTH[i] == "length"[i] as int
  {}

  /** The own names of a frozen array: its indices and its length. */
  predicate ArrayOwns(name: Text, n: nat) {
    name == LENGTH || exists i | 0 <= i < n :: name == IndexText(i)
  }

  /** The names held, frozen, by a clone and its prototypes. */
  predicate Owns(m: Metadata, name: Text) {
    match m
    case List(items) => ArrayOwns(name, |items|)
    case Record(prototype, fields) =>
      HasField(fields, name) || (prototype.Installed? && Owns(prototype.frozen, name))
    case _ => false
  }

  /**
   Assignment.  To `__proto__` it adds no own property: an object becomes the prototype, null takes the
   plain one away, anything else is ignored.  A name that the prototype holds frozen cannot be assigned: None.
   */
  function Assign(target: Metadata, field: Field): Option<Metadata>
    requires target.Record?
  {
    if field.name == PROTO then
      Some(if IsObject(field.value) then Record(Installed(field.value), target.fields) else target)
    else if target.prototype.Installed? && Owns(target.prototype.frozen, field.name) then None
    else Some(Record(target.prototype, target.fields + [field]))
  }

  function CloneMetadata(forbidden: Text -> bool, m: Metadata): Option<Metadata>
    decreases m, 1
  {
    match m
    case Null => Some(m)
    case Scalar(_) => Some(m)
    case NotJson => None
    case List(items) =>
      var cloned := CloneItems(forbidden, items);
      if cloned.Some? then Some(List(cloned.value)) else None
    case Record(prototype, fields) => if prototype.Plain? then CloneFields(forbidden, fields) else None
  }

  function CloneItems(forbidden: Text -> bool, items: seq<Metadata>): (r: Option<seq<Metadata>>)
    ensures r.Some? ==> |r.value| == |items|
    decreases items, 0
  {
    if items == [] then Some([])
    else
      match (CloneMetadata(forbidden, items[0]), CloneItems(forbidden, items[1..]))
      case (Some(first), Some(rest)) => Some([first] + rest)
      case _ => None
  }

  /** The result is a record; fields are assigned in order. */
  function CloneFields(forbidden: Text -> bool, fields: seq<Field>): (r: Option<Metadata>)
    ensures r.Some? ==> r.value.Record?
    decreases fields, 0
  {
    if fields == [] then Some(Record(Plain, []))
    else
      var last := fields[|fields| - 1];
      match CloneFields(forbidden, fields[..|fields| - 1])
      case None => None
      case Some(before) =>
        if !AllowedName(forbidden, last.name) then None
        else
          match CloneMetadata(forbidden, last.value)
          case None => None
          case Some(value) => Assign(before, Field(last.name, value))
  }

  predicate AllowedName(forbidden: Text -> bool, name: Text) {
    !forbidden(name) && Trim(name) != []
  }

  // ----- what can be cloned -----

  /** The object that assigning these fields in order leaves installed holds the name. */
  predicate InstalledHolds(fields: seq<Field>, name: Text)
    decreases fields, 0
  {
    if fields == [] then false
    else
      var last := fields[|fields| - 1];
      if last.name == PROTO && IsObject(last.value) then Holds(last.value, name)
      else InstalledHolds(fields[..|fields| - 1], name)
  }

  /** The clone of this value, or one of the prototypes the clone gets, holds the name. */
  predicate Holds(m: Metadata, name: Text)
    decreases m, 1
  {
    match m
    case List(items) => ArrayOwns(name, |items|)
    case Record(_, fields) => (name != PROTO && HasField(fields, name)) || InstalledHolds(fields, name)
    case _ => false
  }

  /** JSON-like throughout, with allowed names, none of them held by an object installed before it. */
  ghost predicate Clonable(forbidden: Text -> bool, m: Metadata)
    decreases m, 1
  {
    match m
    case NotJson => false
    case List(items) => forall i | 0 <= i < |items| :: Clonable(forbidden, items[i])
    case Record(prototype, fields) =>
      prototype.Plain? && FieldsClonable(forbidden, fields) && Unshadowed(fields)
    case _ => true
  }

  ghost predicate FieldsClonable(forbidden: Text -> bool, fields: seq<Field>)
    decreases fields, 0
  {
    forall i | 0 <= i < |fields| :: AllowedName(forbidden, fields[i].name) && Clonable(forbidden, fields[i].value)
  }

  lemma LastIsClonable(forbidden: Text -> bool, fields: seq<Field>)
    requires fields != []
    ensures var n := |fields| - 1;
            FieldsClonable(forbidden, fields) <==>
            FieldsClonable(forbidden, fields[..n]) && AllowedName(forbidden, fields[n].name) &&
            Clonable(forbidden, fields[n].value)
  {
    hide Clonable, AllowedName;
    var n := |fields| - 1;
    assert forall i | 0 <= i < |fields| :: fields[i] == if i < n then fields[..n][i] else fields[n];
  }

  ghost predicate Unshadowed(fields: seq<Field>) {
    forall i | 0 <= i < |fields| && fields[i].name != PROTO :: !InstalledHolds(fields[..i], fields[i].name)
  }

  lemma LastIsUnshadowed(fields: seq<Field>)
    requires fields != []
    ensures var n := |fields| - 1;
            Unshadowed(fields) <==>
            Unshadowed(fields[..n]) && (fields[n].name == PROTO || !InstalledHolds(fields[..n], fields[n].name))
  {
    hide InstalledHolds;
    var n := |fields| - 1;
    assert forall i | 0 <= i < n :: fields[..n][i] == fields[i] && fields[..n][..i] == fields[..i];
  }

  lemma HasLastField(fields: seq<Field>, f: Field, name: Text)
    ensures HasField(fields + [f], name) <==> HasField(fields, name) || f.name == name
  {
    var longer := fields + [f];
    assert longer[|fields|] == f;
    if HasField(fields, name) {
      var i :| 0 <= i < |fields| && fields[i].name == name;
      assert longer[i].name == name;
    }
  }

  /** The parts of a clone made so far, against the fields they come from. */
  lemma {:induction false} FieldsOwnWhatTheyHold(forbidden: Text -> bool, fields: seq<Field>, c: Metadata, name: Text)
    requires CloneFields(forbidden, fields) == Some(c)
    ensures HasField(c.fields, name) <==> name != PROTO && HasField(fields, name)
    ensures (c.prototype.Installed? && Owns(c.prototype.frozen, name)) <==> InstalledHolds(fields, name)
    decreases fields, 0
  {
    if fields != [] {
      var n := |fields| - 1;
      var last, before := fields[n], CloneFields(forbidden, fields[..n]).value;
      var value := CloneMetadata(forbidden, last.value).value;
      FieldsOwnWhatTheyHold(forbidden, fields[..n], before, name);
      OwnsWhatItHolds(forbidden, last.value, value, name);
      HasLastField(fields[..n], last, name);
      HasLastField(before.fields, Field(last.name, value), name);
      assert fields[..n] + [last] == fields;
      hide HasField, Holds, Owns, CloneFields, CloneMetadata, AllowedName;
    }
  }

  lemma {:induction false} OwnsWhatItHolds(forbidden: Text -> bool, m: Metadata, c: Metadata, name: Text)
    requires CloneMetadata(forbidden, m) == Some(c)
    ensures Owns(c, name) <==> Holds(m, name)
    ensures IsObject(c) <==> IsObject(m)
    decreases m, 1
  {
    hide ArrayOwns, HasField;
    match m
    case Record(_, fields) => FieldsOwnWhatTheyHold(forbidden, fields, c, name);
    case _ =>
  }

  lemma {:induction false} FieldsCloneExactly(forbidden: Text -> bool, fields: seq<Field>)
    ensures CloneFields(forbidden, fields).Some? <==>
            FieldsClonable(forbidden, fields) && Unshadowed(fields)
    decreases fields, 0
  {
    if fields != [] {
      var n := |fields| - 1;
      FieldsCloneExactly(forbidden, fields[..n]);
      ClonesExactly(forbidden, fields[n].value);
      LastIsUnshadowed(fields);
      LastIsClonable(forbidden, fields);
      if CloneFields(forbidden, fields[..n]).Some? {
        FieldsOwnWhatTheyHold(forbidden, fields[..n], CloneFields(forbidden, fields[..n]).value, fields[n].name);
      }
      hide Clonable, FieldsClonable, AllowedName, Unshadowed, Owns, InstalledHolds, CloneMetadata;
    }
  }

  lemma {:induction false} ItemsCloneExactly(forbidden: Text -> bool, items: seq<Metadata>)
    ensures CloneItems(forbidden, items).Some? <==> forall i | 0 <= i < |items| :: Clonable(forbidden, items[i])
    decreases items, 0
  {
    if items != [] {
      ItemsCloneExactly(forbidden, items[1..]);
      ClonesExactly(forbidden, items[0]);
      hide Clonable, CloneMetadata;
      assert forall i | 0 <= i < |items| :: items[i] == if i == 0 then items[0] else items[1..][i - 1];
    }
  }

  /** Exactly the clonable values can be cloned. */
  lemma {:induction false} ClonesExactly(forbidden: Text -> bool, m: Metadata)
    ensures CloneMetadata(forbidden, m).Some? <==> Clonable(forbidden, m)
    decreases m, 1
  {
    match m
    case List(items) => ItemsCloneExactly(forbidden, items);
    case Record(_, fields) => FieldsCloneExactly(forbidden, fields);
    case _ =>
  }

  /** The clone has the same values in the same places; what was assigned to `__proto__` is its prototype. */
  ghost predicate Mirrors(m: Metadata, c: Metadata)
    decreases m, 1
  {
    match m
    case Null => c.Null?
    case Scalar(_) => c == m
    case NotJson => false
    case List(items) =>
      c.List? && |c.items| == |items| && forall i | 0 <= i < |items| :: Mirrors(items[i], c.items[i])
    case Record(_, fields) => c.Record? && FieldsMirror(fields, c.fields) && PrototypeMirrors(fields, c.prototype)
  }

  /** Every field but those named `__proto__`, in order. */
  ghost predicate FieldsMirror(fields: seq<Field>, kept: seq<Field>)
    decreases fields, 0
  {
    if fields == [] then kept == []
    else
      var n := |fields| - 1;
      if fields[n].name == PROTO then FieldsMirror(fields[..n], kept)
      else
        && kept != [] && kept[|kept| - 1].name == fields[n].name
        && Mirrors(fields[n].value, kept[|kept| - 1].value) && FieldsMirror(fields[..n], kept[..|kept| - 1])
  }

  /** The last object assigned to `__proto__`, or the plain prototype. */
  ghost predicate PrototypeMirrors(fields: seq<Field>, prototype: Prototype)
    decreases fields, 0
  {
    if fields == [] then prototype.Plain?
    else
      var n := |fields| - 1;
      if fields[n].name == PROTO && IsObject(fields[n].value) then
        prototype.Installed? && Mirrors(fields[n].value, prototype.frozen)
      else PrototypeMirrors(fields[..n], prototype)
  }

  lemma {:induction false} FieldsAreMirrored(forbidden: Text -> bool, fields: seq<Field>)
    requires CloneFields(forbidden, fields).Some?
    ensures var c := CloneFields(forbidden, fields).value;
            FieldsMirror(fields, c.fields) && PrototypeMirrors(fields, c.prototype)
    decreases fields, 0
  {
    if fields != [] {
      var n := |fields| - 1;
      FieldsAreMirrored(forbidden, fields[..n]);
      CloneMirrors(forbidden, fields[n].value);
      var before, value := CloneFields(forbidden, fields[..n]).value, CloneMetadata(forbidden, fields[n].value).value;
      MirrorIsObject(fields[n].value, value);
      hide AllowedName, Owns, Mirrors, IsObject, CloneMetadata;
      assert (before.fields + [Field(fields[n].name, value)])[..|before.fields|] == before.fields;
    }
  }

  lemma MirrorIsObject(m: Metadata, c: Metadata)
    requires Mirrors(m, c)
    ensures IsObject(c) <==> IsObject(m)
  {}

  lemma {:induction false} ItemsAreMirrored(forbidden: Text -> bool, items: seq<Metadata>)
    requires CloneItems(forbidden, items).Some?
    ensures var cs := CloneItems(forbidden, items).value;
            |cs| == |items| && forall i | 0 <= i < |items| :: Mirrors(items[i], cs[i])
    decreases items, 0
  {
    if items != [] {
      CloneMirrors(forbidden, items[0]);
      ItemsAreMirrored(forbidden, items[1..]);
      hide Mirrors, CloneMetadata;
      assert forall i | 0 < i < |items| :: items[i] == items[1..][i - 1];
    }
  }

  /** Whatever is cloned is mirrored, value for value. */
  lemma {:induction false} CloneMirrors(forbidden: Text -> bool, m: Metadata)
    requires CloneMetadata(forbidden, m).Some?
    ensures Mirrors(m, CloneMetadata(forbidden, m).value)
    decreases m, 1
  {
    match m
    case List(items) => ItemsAreMirrored(forbidden, items);
    case Record(_, fields) => FieldsAreMirrored(forbidden, fields);
    case _ =>
  }

  /** Every name of a cloned record is allowed and not blank. */
  lemma ClonedNamesAreAllowed(forbidden: Text -> bool, prototype: Prototype, fields: seq<Field>, i: nat)
    requires CloneMetadata(forbidden, Record(prototype, fields)).Some? && i < |fields|
    ensures prototype.Plain? && !forbidden(fields[i].name) && Trim(fields[i].name) != []
  {
    ClonesExactly(forbidden, Record(prototype, fields));
    hide Trim, CloneMetadata, Unshadowed;
  }

  const LETTER_A: Text := [97]

  /** The value of `{"__proto__": {"a": null}, "a": null}`: every part can be cloned, the whole cannot. */
  lemma ShadowedNameBreaksClone(forbidden: Text -> bool)
    requires AllowedName(forbidden, PROTO) && AllowedName(forbidden, LETTER_A)
    ensures var inner := Record(Plain, [Field(LETTER_A, Null)]);
            Clonable(forbidden, inner) && CloneMetadata(forbidden, inner) == Some(inner) &&
            CloneMetadata(forbidden, Record(Plain, [Field(PROTO, inner), Field(LETTER_A, Null)])).None?
  {
    var inner := Record(Plain, [Field(LETTER_A, Null)]);
    assert LETTER_A != PROTO;
    assert inner.fields[..0] == [] && CloneFields(forbidden, []) == Some(Record(Plain, []));
    assert CloneMetadata(forbidden, Null) == Some(Null);
    assert [] + inner.fields == inner.fields;
    assert CloneFields(forbidden, inner.fields) == Some(inner);
    ClonesExactly(forbidden, inner);
    var fields := [Field(PROTO, inner), Field(LETTER_A, Null)];
    assert fields[..1] == [fields[0]] && fields[..1][..0] == [];
    assert inner.fields[0].name == LETTER_A;
    assert CloneFields(forbidden, fields[..1]) == Some(Record(Installed(inner), []));
    assert Owns(inner, LETTER_A);
  }

  // ----- cloning a clone -----

  /** No `__proto__` field holds an object, at any depth the clone keeps. */
  predicate Settled(m: Metadata) {
    match m
    case List(items) => forall i | 0 <= i < |items| :: Settled(items[i])
    case Record(_, fields) =>
      forall i | 0 <= i < |fields| ::
        if fields[i].name == PROTO then !IsObject(fields[i].value) else Settled(fields[i].value)
    case _ => true
  }

  predicate NoObjectPrototype(fields: seq<Field>) {
    forall i | 0 <= i < |fields| && fields[i].name == PROTO :: !IsObject(fields[i].value)
  }

  predicate KeptSettled(fields: seq<Field>) {
    forall i | 0 <= i < |fields| && fields[i].name != PROTO :: Settled(fields[i].value)
  }

  /** A clone can be cloned again exactly when its original was settled, and is then unchanged. */
  lemma {:induction false} CloneTwice(forbidden: Text -> bool, m: Metadata, c: Metadata)
    requires CloneMetadata(forbidden, m) == Some(c)
    ensures CloneMetadata(forbidden, c).Some? <==> Settled(m)
    ensures Settled(m) ==> CloneMetadata(forbidden, c) == Some(c)
    ensures IsObject(c) <==> IsObject(m)
    decreases m, 1
  {
    match m
    case List(items) => CloneItemsTwice(forbidden, items, c.items);
    case Record(plain, fields) => CloneFieldsTwice(forbidden, fields, c);
    case _ =>
  }

  lemma {:induction false} CloneItemsTwice(forbidden: Text -> bool, items: seq<Metadata>, cs: seq<Metadata>)
    requires CloneItems(forbidden, items) == Some(cs)
    ensures CloneItems(forbidden, cs).Some? <==> forall i | 0 <= i < |items| :: Settled(items[i])
    ensures CloneItems(forbidden, cs).Some? ==> CloneItems(forbidden, cs) == Some(cs)
    decreases items, 0
  {
    if items != [] {
      CloneTwice(forbidden, items[0], cs[0]);
      assert cs[1..] == CloneItems(forbidden, items[1..]).value;
      CloneItemsTwice(forbidden, items[1..], cs[1..]);
      assert forall i | 0 < i < |items| :: items[i] == items[1..][i - 1];
    }
  }

  lemma LastFieldDecides(fields: seq<Field>)
    requires fields != []
    ensures var n := |fields| - 1;
            (NoObjectPrototype(fields) <==>
               NoObjectPrototype(fields[..n]) && (fields[n].name == PROTO ==> !IsObject(fields[n].value))) &&
            (KeptSettled(fields) <==>
               KeptSettled(fields[..n]) && (fields[n].name != PROTO ==> Settled(fields[n].value)))
  {
    hide Settled, IsObject;
    var n := |fields| - 1;
    assert forall i | 0 <= i < |fields| :: fields[i] == if i < n then fields[..n][i] else fields[n];
  }

  predicate WithoutPrototype(fields: seq<Field>) {
    forall i | 0 <= i < |fields| :: fields[i].name != PROTO
  }

  lemma {:induction false} PlainWithoutPrototype(forbidden: Text -> bool, fields: seq<Field>)
    requires WithoutPrototype(fields) && CloneFields(forbidden, fields).Some?
    ensures CloneFields(forbidden, fields).value.prototype == Plain
  {
    if fields != [] {
      PlainWithoutPrototype(forbidden, fields[..|fields| - 1]);
      hide CloneMetadata, AllowedName, Owns;
    }
  }

  /** Cloning again a list of kept fields, one field longer. */
  lemma CloneOneMore(forbidden: Text -> bool, kept: seq<Field>, f: Field)
    requires WithoutPrototype(kept) && f.name != PROTO && AllowedName(forbidden, f.name)
    ensures var before, last := CloneFields(forbidden, kept), CloneMetadata(forbidden, f.value);
            CloneFields(forbidden, kept + [f]) ==
            if before.Some? && last.Some?
            then Some(Record(Plain, before.value.fields + [Field(f.name, last.value)])) else None
  {
    hide AllowedName, CloneMetadata, Owns;
    assert (kept + [f])[..|kept|] == kept;
    if CloneFields(forbidden, kept).Some? {
      PlainWithoutPrototype(forbidden, kept);
    }
  }

  lemma {:induction false} CloneFieldsTwice(forbidden: Text -> bool, fields: seq<Field>, c: Metadata)
    requires CloneFields(forbidden, fields) == Some(c)
    ensures WithoutPrototype(c.fields)
    ensures c.prototype.Plain? <==> NoObjectPrototype(fields)
    ensures CloneFields(forbidden, c.fields).Some? <==> KeptSettled(fields)
    ensures KeptSettled(fields) ==> CloneFields(forbidden, c.fields) == Some(Record(Plain, c.fields))
    decreases fields, 0
  {
    if fields != [] {
      var n := |fields| - 1;
      var last, before := fields[n], CloneFields(forbidden, fields[..n]).value;
      var value := CloneMetadata(forbidden, last.value).value;
      assert Some(c) == Assign(before, Field(last.name, value)) && AllowedName(forbidden, last.name);
      CloneFieldsTwice(forbidden, fields[..n], before);
      CloneTwice(forbidden, last.value, value);
      LastFieldDecides(fields);
      hide Settled, AllowedName, CloneMetadata, CloneFields, NoObjectPrototype, KeptSettled, IsObject, Owns;
      if last.name != PROTO {
        CloneOneMore(forbidden, before.fields, Field(last.name, value));
      }
    }
  }

  /**
   An own `__proto__` field holding an object: the clone is made, but its prototype is no longer plain,
   so cloning the clone throws.
   */
  lemma OwnPrototypeBreaksSecondClone(forbidden: Text -> bool)
    requires !forbidden(PROTO)
    ensures var inner := Record(Plain, []);
            var m, c := Record(Plain, [Field(PROTO, inner)]), Record(Installed(inner), []);
            CloneMetadata(forbidden, m) == Some(c) && CloneMetadata(forbidden, c).None? && !Settled(m)
  {
    var inner := Record(Plain, []);
    var fields := [Field(PROTO, inner)];
    assert Trim(PROTO) == PROTO by {
      assert PROTO[0] == 95 && PROTO[8] == 95;
    }
    assert fields[..0] == [];
    assert CloneFields(forbidden, fields) == Some(Record(Installed(inner), []));
    assert fields[0].name == PROTO && IsObject(fields[0].value);
  }

  // ----- snapshots -----

  datatype Status = Active | Paused | Disabled | UnknownStatus

  datatype Snapshot = Snapshot(
    key: Key, status: Status, agentId: Text, sessionId: Text, createdAtIso: Text, updatedAtIso: Text,
    metadata: Option<Metadata>)

  function CreateSnapshot(forbidden: Text -> bool, input: Snapshot): Result<Snapshot, Failure> {
    if input.status == UnknownStatus then Err(TypeError)
    else
      var metadata := if input.metadata.None? then Some(Null) else CloneMetadata(forbidden, input.metadata.value);
      match (metadata, CreateKey(input.key), RequiredText(input.agentId), RequiredText(input.sessionId),
             RequiredText(input.createdAtIso), RequiredText(input.updatedAtIso))
      case (Some(m), Ok(key), Ok(agent), Ok(session), Ok(created), Ok(updated)) =>
        Ok(Snapshot(key, input.status, agent, session, created, updated,
                    if input.metadata.None? then None else Some(m)))
      case _ => Err(TypeError)
  }

  ghost predicate Trimmed(raw: Text, text: Text) {
    text == Trim(raw) && text != []
  }

  /** A snapshot is created exactly from a known status, texts that are not blank, and metadata that can be cloned. */
  lemma CreatesExactly(forbidden: Text -> bool, input: Snapshot, s: Snapshot)
    ensures CreateSnapshot(forbidden, input) == Ok(s) <==>
            && input.status in {Active, Paused, Disabled} && s.status == input.status
            && Trimmed(input.key.workspaceId, s.key.workspaceId) && Trimmed(input.key.channelId, s.key.channelId)
            && Trimmed(input.key.topicId, s.key.topicId)
            && Trimmed(input.agentId, s.agentId) && Trimmed(input.sessionId, s.sessionId)
            && Trimmed(input.createdAtIso, s.createdAtIso) && Trimmed(input.updatedAtIso, s.updatedAtIso)
            && (input.metadata.None? <==> s.metadata.None?)
            && (s.metadata.Some? ==> CloneMetadata(forbidden, input.metadata.value) == Some(s.metadata.value))
    ensures CreateSnapshot(forbidden, input).Err? ==> CreateSnapshot(forbidden, input) == Err(TypeError)
  {
    hide Trim, CloneMetadata;
  }

  predicate SettledSnapshot(s: Snapshot) {
    s.metadata.Some? ==> Settled(s.metadata.value)
  }

  /** A created snapshot is a fixed point of creation exactly when the input's metadata was settled. */
  lemma CreateTwice(forbidden: Text -> bool, input: Snapshot, s: Snapshot)
    requires CreateSnapshot(forbidden, input) == Ok(s)
    ensures CreateSnapshot(forbidden, s) == if SettledSnapshot(input) then Ok(s) else Err(TypeError)
    ensures s.key == CreateKey(input.key).value && CreateKey(s.key) == Ok(s.key)
  {
    CreateKeyIsIdempotent(input.key);
    TrimIsIdempotent(IsSpaceUnit, input.agentId);
    TrimIsIdempotent(IsSpaceUnit, input.sessionId);
    TrimIsIdempotent(IsSpaceUnit, input.createdAtIso);
    TrimIsIdempotent(IsSpaceUnit, input.updatedAtIso);
    if input.metadata.Some? {
      CloneTwice(forbidden, input.metadata.value, s.metadata.value);
    }
    hide CloneMetadata, Settled, Trim;
  }
}
