/**
 * The request models of `POST /api/orders`: an order item (`OrderItemCreate`)
 * and an order (`OrderCreate`), with their field constraints and validators.
 * Fields are checked in declaration order and the failures of every field
 * are collected; a field's constraints are checked before its validator,
 * which only runs on a value that met them.
 */
module OrderModels {
  import opened Wrappers
  import opened Text
  import opened PyWords
  import opened Separated
  import opened Failures
  import opened Constraints

  datatype OrderItem = OrderItem(id: string, name: string, price: real, quantity: int)
  datatype Order = Order(customerName: string, customerEmail: string, items: seq<OrderItem>)

  const NameMessage := "Name can only contain letters, spaces, hyphens, and apostrophes"
  const DisposableMessage := "Disposable email addresses are not allowed"
  const DuplicateMessage := "Duplicate items in order. Please adjust quantities instead."
  const UuidMessage := "Invalid UUID format"

  const BlockedDomains: seq<string> := ["tempmail.com", "throwaway.email", "guerrillamail.com"]

  const MaxNameLength := 255
  const MaxItems := 50

  predicate IsAsciiLetter(c: char) {
    'a' <= c <= 'z' || 'A' <= c <= 'Z'
  }

  /** The character class `[a-zA-Z\s\-']` of the name pattern. */
  predicate NameChar(c: char) {
    IsAsciiLetter(c) || IsSpace(c) || c == '-' || c == '\''
  }

  /** `^[a-zA-Z\s\-']+$` matches the whole of `v`. */
  predicate NamePattern(v: string) {
    v != [] && forall i :: 0 <= i < |v| ==> NameChar(v[i])
  }

  // ---------------------------------------------------------------- name

  /**
   * `validate_name`: a name made only of ASCII letters, whitespace, hyphens
   * and apostrophes is accepted with its whitespace collapsed; anything else
   * is refused with the fixed message. A name of whitespace only is
   * accepted and becomes empty.
   */
  function ValidateName(v: string): (r: Result<string, string>)
    ensures r.Success? <==> NamePattern(v)
    ensures r.Failure? ==> r.error == NameMessage
    ensures r.Success? ==> SingleSpaced(r.value) && SplitWords(r.value) == SplitWords(v)
    ensures r.Success? ==> |r.value| <= |v| && (r.value == [] <==> AllSpace(v))
    ensures r.Success? ==> forall i :: 0 <= i < |r.value| ==>
              IsAsciiLetter(r.value[i]) || r.value[i] == ' ' || r.value[i] == '-' || r.value[i] == '\''
  {
    if NamePattern(v) then
      CollapsedNameChars(v);
      Success(CollapseSpaces(v))
    else
      Failure(NameMessage)
  }

  lemma CollapsedNameChars(v: string)
    requires NamePattern(v)
    ensures var n := CollapseSpaces(v);
      forall i :: 0 <= i < |n| ==> IsAsciiLetter(n[i]) || n[i] == ' ' || n[i] == '-' || n[i] == '\''
  {
    var n := CollapseSpaces(v);
    forall i | 0 <= i < |n| ensures IsAsciiLetter(n[i]) || n[i] == ' ' || n[i] == '-' || n[i] == '\'' {
      if n[i] != ' ' {
        assert n[i] in v;
        var j :| 0 <= j < |v| && v[j] == n[i];
        assert NameChar(v[j]);
      }
    }
  }

  /** Validating a name that validation produced, when it is not empty, changes nothing. */
  lemma ValidateNameIdempotent(v: string)
    requires ValidateName(v).Success? && ValidateName(v).value != []
    ensures ValidateName(ValidateName(v).value) == ValidateName(v)
  {
    var n := ValidateName(v).value;
    BlankIsSpace();
    assert NamePattern(n);
    CollapseIdempotent(v);
  }

  // ---------------------------------------------------------------- e-mail

  /** `v.split('@')[1]`: the text between the first '@' and the next one. */
  function EmailDomain(v: string): (d: string)
    requires '@' in v
    ensures '@' !in d
  {
    SplitOn(v, '@')[1]
  }

  /**
   * `validate_email_domain`: an address whose domain, lower-cased, is
   * exactly one of the blocked domains is refused; any other address is
   * accepted and lower-cased.
   */
  function ValidateEmailDomain(v: string): (r: Result<string, string>)
    requires '@' in v
    ensures r.Failure? <==> Lower(EmailDomain(v)) in BlockedDomains
    ensures r.Failure? ==> r.error == DisposableMessage
    ensures r.Success? ==> r.value == Lower(v)
  {
    var domain := Lower(EmailDomain(v));
    if domain in BlockedDomains then Failure(DisposableMessage) else Success(Lower(v))
  }

  /** For `local@domain` with a single '@', the checked domain is `domain`. */
  lemma EmailDomainOfAddress(local: string, domain: string)
    requires '@' !in local && '@' !in domain
    ensures '@' in local + "@" + domain
    ensures EmailDomain(local + "@" + domain) == domain
  {
    assert (local + "@" + domain)[|local|] == '@';
    SplitOnPiece(local, domain, '@');
    SplitOnWhole(domain, '@');
  }

  /** A blocked domain is refused whatever its letter case. */
  lemma BlockedDomainRefused(local: string, domain: string)
    requires '@' !in local && '@' !in domain
    requires Lower(domain) in BlockedDomains
    ensures '@' in local + "@" + domain
    ensures ValidateEmailDomain(local + "@" + domain) == Failure(DisposableMessage)
  {
    EmailDomainOfAddress(local, domain);
  }

  /** Lower-casing does not move the '@' separators. */
  lemma {:induction false} SplitOnLower(s: string)
    ensures |SplitOn(Lower(s), '@')| == |SplitOn(s, '@')|
    ensures forall k :: 0 <= k < |SplitOn(s, '@')| ==> SplitOn(Lower(s), '@')[k] == Lower(SplitOn(s, '@')[k])
    decreases |s|
  {
    if s != [] {
      var t := Lower(s);
      SplitOnLower(s[1..]);
      assert t[1..] == Lower(s[1..]);
      var rest := SplitOn(s[1..], '@');
      var lowRest := SplitOn(t[1..], '@');
      if s[0] == '@' {
        assert t[0] == '@';
        assert SplitOn(t, '@') == [[]] + lowRest;
        assert SplitOn(s, '@') == [[]] + rest;
      } else {
        assert t[0] != '@';
        assert SplitOn(t, '@') == [[t[0]] + lowRest[0]] + lowRest[1..];
        assert SplitOn(s, '@') == [[s[0]] + rest[0]] + rest[1..];
        LowerConcat([s[0]], rest[0]);
        assert Lower([s[0]]) == [t[0]];
      }
    }
  }

  /** An address the validator accepted is accepted again, unchanged. */
  lemma ValidateEmailDomainIdempotent(v: string)
    requires '@' in v && ValidateEmailDomain(v).Success?
    ensures '@' in Lower(v)
    ensures ValidateEmailDomain(Lower(v)) == Success(Lower(v))
  {
    var i :| 0 <= i < |v| && v[i] == '@';
    assert Lower(v)[i] == '@';
    SplitOnLower(v);
    LowerIdempotent(EmailDomain(v));
    LowerIdempotent(v);
  }

  // ---------------------------------------------------------------- items

  function Ids(items: seq<OrderItem>): (ids: seq<string>)
    ensures |ids| == |items|
    ensures forall i :: 0 <= i < |items| ==> ids[i] == items[i].id
  {
    seq(|items|, i requires 0 <= i < |items| => items[i].id)
  }

  /** Python's `set(s)`. */
  function Elements(s: seq<string>): (e: set<string>)
    ensures forall x :: x in e <==> x in s
  {
    if s == [] then {} else {s[0]} + Elements(s[1..])
  }

  predicate Distinct(s: seq<string>) {
    forall i, j :: 0 <= i < j < |s| ==> s[i] != s[j]
  }

  /** `len(set(s)) == len(s)` holds exactly when no element repeats. */
  lemma {:induction false} SetSizeDetectsRepeats(s: seq<string>)
    ensures |Elements(s)| <= |s|
    ensures |Elements(s)| == |s| <==> Distinct(s)
  {
    if s != [] {
      var rest := s[1..];
      SetSizeDetectsRepeats(rest);
      if s[0] in rest {
        assert Elements(s) == Elements(rest);
        RepeatedHead(s);
      } else {
        assert Elements(s) == {s[0]} + Elements(rest);
        FreshHead(s);
      }
    }
  }

  /** A first element that occurs again is a repeat. */
  lemma RepeatedHead(s: seq<string>)
    requires s != [] && s[0] in s[1..]
    ensures !Distinct(s)
  {
    var j :| 0 <= j < |s[1..]| && s[1..][j] == s[0];
    assert s[0] == s[j + 1];
  }

  /** A first element that does not occur again adds no repeat. */
  lemma FreshHead(s: seq<string>)
    requires s != [] && s[0] !in s[1..]
    ensures Distinct(s) <==> Distinct(s[1..])
  {
    var rest := s[1..];
    if Distinct(rest) {
      forall i, j | 0 <= i < j < |s| ensures s[i] != s[j] {
        if i == 0 { assert s[j] == rest[j - 1]; } else { assert rest[i - 1] != rest[j - 1]; }
      }
    }
  }

  lemma DistinctIds(items: seq<OrderItem>)
    ensures Distinct(Ids(items)) <==> forall i, j :: 0 <= i < j < |items| ==> items[i].id != items[j].id
  {
  }

  /** `validate_items`: an item list is refused when two items share an id. */
  function ValidateItems(v: seq<OrderItem>): (r: Result<seq<OrderItem>, string>)
    ensures r.Success? <==> Distinct(Ids(v))
    ensures r.Failure? ==> r.error == DuplicateMessage
    ensures r.Success? ==> r.value == v
  {
    var ids := Ids(v);
    SetSizeDetectsRepeats(ids);
    if |ids| != |Elements(ids)| then Failure(DuplicateMessage) else Success(v)
  }

  /** `validate_uuid`: the id must parse as a UUID; `isUuid` stands for `uuid.UUID`. */
  function ValidateUuid(v: string, isUuid: string -> bool): (r: Result<string, string>)
    ensures r.Success? <==> isUuid(v)
    ensures r.Failure? ==> r.error == UuidMessage
    ensures r.Success? ==> r.value == v
  {
    if isUuid(v) then Success(v) else Failure(UuidMessage)
  }

  /** An order item every rule of `OrderItemCreate` accepts. */
  predicate AcceptableItem(item: OrderItem, isUuid: string -> bool) {
    && isUuid(item.id)
    && 1 <= |item.name| <= MaxNameLength
    && 0.0 < item.price <= 10000.0
    && 1 <= item.quantity <= 100
  }

  predicate ItemFieldLoc(loc: seq<LocSegment>) {
    loc == [Key("id")] || loc == [Key("name")] || loc == [Key("price")] || loc == [Key("quantity")]
  }

  /** The checks of `OrderItemCreate`, one block per field in declaration order. */
  function ItemFieldBlocks(item: OrderItem, isUuid: string -> bool): seq<seq<FieldFailure>> {
    [ Report([Key("id")], Raised(ValidateUuid(item.id, isUuid))),
      Report([Key("name")], LengthCheck(item.name, 1, MaxNameLength)),
      Report([Key("price")], AboveAtMostCheck(item.price, 0.0, 10000.0)),
      Report([Key("quantity")], AtLeastAtMostCheck(item.quantity, 1, 100)) ]
  }

  /** The failures of one order item, field by field, each located at its field. */
  function ItemFailures(item: OrderItem, isUuid: string -> bool): (fs: seq<FieldFailure>)
    ensures fs == [] <==> AcceptableItem(item, isUuid)
    ensures forall f :: f in fs ==> ItemFieldLoc(f.loc)
  {
    var blocks := ItemFieldBlocks(item, isUuid);
    FlattenEmpty(blocks);
    assert (forall i :: 0 <= i < |blocks| ==> blocks[i] == [])
      <==> blocks[0] == [] && blocks[1] == [] && blocks[2] == [] && blocks[3] == [];
    ItemFieldsLocated(blocks);
    Flatten(blocks)
  }

  lemma ItemFieldsLocated(blocks: seq<seq<FieldFailure>>)
    requires forall i :: 0 <= i < |blocks| ==> forall f :: f in blocks[i] ==> ItemFieldLoc(f.loc)
    ensures forall f :: f in Flatten(blocks) ==> ItemFieldLoc(f.loc)
  {
    forall f | f in Flatten(blocks) ensures ItemFieldLoc(f.loc) {
      FlattenMember(blocks, f);
    }
  }

  /** Each field of an item is reported exactly when it breaks its rule. */
  lemma ItemFailuresPerField(item: OrderItem, isUuid: string -> bool)
    ensures var fs := ItemFailures(item, isUuid);
      && (Flags(fs, [Key("id")]) <==> !isUuid(item.id))
      && (Flags(fs, [Key("name")]) <==> !(1 <= |item.name| <= MaxNameLength))
      && (Flags(fs, [Key("price")]) <==> !(0.0 < item.price <= 10000.0))
      && (Flags(fs, [Key("quantity")]) <==> !(1 <= item.quantity <= 100))
  {
    var blocks := ItemFieldBlocks(item, isUuid);
    var fs := Flatten(blocks);
    assert fs == ItemFailures(item, isUuid);
    FieldFlagged(blocks, 0, [Key("id")]);
    FieldFlagged(blocks, 1, [Key("name")]);
    FieldFlagged(blocks, 2, [Key("price")]);
    FieldFlagged(blocks, 3, [Key("quantity")]);
  }

  /** `OrderItemCreate`: the item as given, or the failures of its fields. */
  function ValidateOrderItem(item: OrderItem, isUuid: string -> bool): (r: Result<OrderItem, seq<FieldFailure>>)
    ensures r.Success? <==> AcceptableItem(item, isUuid)
    ensures r.Success? ==> r.value == item
    ensures r.Failure? ==> r.error != [] && r.error == ItemFailures(item, isUuid)
  {
    var fs := ItemFailures(item, isUuid);
    if fs == [] then Success(item) else Failure(fs)
  }

  /** A failure located inside the item at position `p`. */
  predicate AtItem(f: FieldFailure, p: nat) {
    f.loc != [] && f.loc[0] == Index(p)
  }

  /** Every failure in `fs` lies inside the item at position `p`. */
  predicate AllAtItem(fs: seq<FieldFailure>, p: nat) {
    forall f :: f in fs ==> AtItem(f, p)
  }

  /** The failures of the item at position `p`, located under that position. */
  function ItemAt(item: OrderItem, isUuid: string -> bool, p: nat): (fs: seq<FieldFailure>)
    ensures fs == [] <==> AcceptableItem(item, isUuid)
    ensures AllAtItem(fs, p)
  {
    Under(Index(p), ItemFailures(item, isUuid))
  }

  /** `block` holds the failures of `item` at position `p`: none exactly when it is acceptable, all inside it. */
  predicate BlockFor(block: seq<FieldFailure>, item: OrderItem, isUuid: string -> bool, p: nat) {
    (block == [] <==> AcceptableItem(item, isUuid)) && AllAtItem(block, p)
  }

  /** The failures of the first `n` items, one block per item. */
  function ItemBlocks(items: seq<OrderItem>, isUuid: string -> bool, n: nat): (blocks: seq<seq<FieldFailure>>)
    requires n <= |items|
    ensures |blocks| == n
    ensures forall p :: 0 <= p < n ==> BlockFor(blocks[p], items[p], isUuid, p)
  {
    seq(n, p requires 0 <= p < n => ItemAt(items[p], isUuid, p))
  }

  /** Block `p` is exactly the failures of the item at position `p`, located under that position. */
  lemma ItemBlockAt(items: seq<OrderItem>, isUuid: string -> bool, n: nat, p: nat)
    requires n <= |items| && p < n
    ensures ItemBlocks(items, isUuid, n)[p] == ItemAt(items[p], isUuid, p)
  {
  }

  /**
   * The failures of the items in turn, each located at the item's position
   * and then its field.
   */
  function EachItemFailures(items: seq<OrderItem>, isUuid: string -> bool): seq<FieldFailure>
  {
    Flatten(ItemBlocks(items, isUuid, |items|))
  }

  /** `f` lies inside one of the items, and that item is refused. */
  predicate AtRefusedItem(f: FieldFailure, items: seq<OrderItem>, isUuid: string -> bool) {
    && f.loc != [] && f.loc[0].Index? && f.loc[0].position < |items|
    && !AcceptableItem(items[f.loc[0].position], isUuid)
  }

  /** Only a refused item has failures. */
  lemma EachItemFailuresRefused(items: seq<OrderItem>, isUuid: string -> bool, f: FieldFailure)
    requires f in EachItemFailures(items, isUuid)
    ensures AtRefusedItem(f, items, isUuid)
  {
    var blocks := ItemBlocks(items, isUuid, |items|);
    FlattenMember(blocks, f);
    var p :| 0 <= p < |blocks| && f in blocks[p];
    assert AtItem(f, p);
  }

  /** Some failure in `fs` lies inside the item at position `p`. */
  predicate ReportsItem(fs: seq<FieldFailure>, p: nat) {
    exists f :: f in fs && AtItem(f, p)
  }

  /** Every refused item has a failure of its own. */
  lemma EachRefusedItemReported(items: seq<OrderItem>, isUuid: string -> bool, p: nat)
    requires p < |items| && !AcceptableItem(items[p], isUuid)
    ensures ReportsItem(EachItemFailures(items, isUuid), p)
  {
    var blocks := ItemBlocks(items, isUuid, |items|);
    var f := blocks[p][0];
    assert f in blocks[p] && AtItem(f, p);
    MemberFlatten(blocks, p, f);
  }

  /** The item failures are empty exactly when every item is acceptable. */
  lemma EachItemFailuresEmpty(items: seq<OrderItem>, isUuid: string -> bool)
    ensures EachItemFailures(items, isUuid) == [] <==> AllAcceptable(items, isUuid)
  {
    var fs := EachItemFailures(items, isUuid);
    if fs != [] {
      assert fs[0] in fs;
      EachItemFailuresRefused(items, isUuid, fs[0]);
    } else {
      forall p | 0 <= p < |items| ensures AcceptableItem(items[p], isUuid) {
        if !AcceptableItem(items[p], isUuid) {
          EachRefusedItemReported(items, isUuid, p);
        }
      }
    }
  }

  /** The failures of the items flag a field of the item at `p` exactly when that item's own failures flag it. */
  lemma ItemFieldFlag(items: seq<OrderItem>, isUuid: string -> bool, p: nat, field: string)
    requires p < |items|
    ensures Flags(EachItemFailures(items, isUuid), [Index(p), Key(field)])
        <==> Flags(ItemFailures(items[p], isUuid), [Key(field)])
  {
    var blocks := ItemBlocks(items, isUuid, |items|);
    var at := [Index(p), Key(field)];
    assert at == [Index(p)] + [Key(field)];
    FlattenFlags(blocks, at);
    forall i | 0 <= i < |blocks| && i != p ensures !Flags(blocks[i], at) {
      if Flags(blocks[i], at) {
        assert false;
      }
    }
    ItemBlockAt(items, isUuid, |items|, p);
    UnderFlags(Index(p), ItemFailures(items[p], isUuid), [Key(field)]);
  }

  /**
   * Each field of each item is reported, under the item's position, exactly
   * when it breaks its rule: a bad price at position `p` is reported at
   * `p` then `price`, and so on.
   */
  lemma EachItemFieldsReported(items: seq<OrderItem>, isUuid: string -> bool, p: nat)
    requires p < |items|
    ensures var fs, item := EachItemFailures(items, isUuid), items[p];
      && (Flags(fs, [Index(p), Key("id")]) <==> !isUuid(item.id))
      && (Flags(fs, [Index(p), Key("name")]) <==> !(1 <= |item.name| <= MaxNameLength))
      && (Flags(fs, [Index(p), Key("price")]) <==> !(0.0 < item.price <= 10000.0))
      && (Flags(fs, [Index(p), Key("quantity")]) <==> !(1 <= item.quantity <= 100))
  {
    ItemFailuresPerField(items[p], isUuid);
    ItemFieldFlag(items, isUuid, p, "id");
    ItemFieldFlag(items, isUuid, p, "name");
    ItemFieldFlag(items, isUuid, p, "price");
    ItemFieldFlag(items, isUuid, p, "quantity");
  }

  predicate AllAcceptable(items: seq<OrderItem>, isUuid: string -> bool) {
    forall p :: 0 <= p < |items| ==> AcceptableItem(items[p], isUuid)
  }

  /** Every failure in `fs` lies under the field `seg`. */
  predicate AllUnder(fs: seq<FieldFailure>, seg: LocSegment) {
    forall f :: f in fs ==> f.loc != [] && f.loc[0] == seg
  }

  /** The `items` rules: 1 to 50 items, each acceptable, no id repeated. */
  predicate AcceptableItems(items: seq<OrderItem>, isUuid: string -> bool) {
    1 <= |items| <= MaxItems && AllAcceptable(items, isUuid) && Distinct(Ids(items))
  }

  /**
   * The failures of the `items` field: the list length first (1 to 50
   * items), then every item, then, once every item is valid, the duplicate
   * check.
   */
  function ItemsFailures(items: seq<OrderItem>, isUuid: string -> bool): (fs: seq<FieldFailure>)
    ensures fs == [] <==> AcceptableItems(items, isUuid)
    ensures AllUnder(fs, Key("items"))
  {
    var count := ItemCountCheck(|items|, 1, MaxItems);
    if count.Some? then
      Report([Key("items")], count)
    else
      var each := EachItemFailures(items, isUuid);
      EachItemFailuresEmpty(items, isUuid);
      if each != [] then
        Under(Key("items"), each)
      else
        Report([Key("items")], Raised(ValidateItems(items)))
  }

  /** The `items` field: the list as given, or its failures. */
  function ItemsField(items: seq<OrderItem>, isUuid: string -> bool): (r: Result<seq<OrderItem>, seq<FieldFailure>>)
    ensures r.Success? <==> AcceptableItems(items, isUuid)
    ensures r.Success? ==> r.value == items
    ensures r.Failure? ==> r.error != [] && AllUnder(r.error, Key("items"))
  {
    var fs := ItemsFailures(items, isUuid);
    if fs == [] then Success(items) else Failure(fs)
  }

  // ---------------------------------------------------------------- order

  /** The `customer_name` rules: 1 to 255 code points, matching the name pattern. */
  predicate AcceptableName(v: string) {
    1 <= |v| <= MaxNameLength && NamePattern(v)
  }

  /** The `customer_email` rules: a well-formed address on a domain that is not blocked. */
  predicate AcceptableEmail(emailCheck: Option<string>)
    requires emailCheck.Some? ==> '@' in emailCheck.value
  {
    emailCheck.Some? && Lower(EmailDomain(emailCheck.value)) !in BlockedDomains
  }

  /** `customer_name`: 1 to 255 code points, then `validate_name`. */
  function NameField(v: string): (r: Result<string, seq<FieldFailure>>)
    ensures r.Success? <==> AcceptableName(v)
    ensures r.Success? ==> r.value == ValidateName(v).value
    ensures r.Failure? ==> r.error != [] && AllUnder(r.error, Key("customer_name"))
  {
    var length := LengthCheck(v, 1, MaxNameLength);
    if length.Some? then
      Failure(Report([Key("customer_name")], length))
    else
      match ValidateName(v)
      case Success(n) => Success(n)
      case Failure(m) => Failure([FieldFailure([Key("customer_name")], ValueError(m))])
  }

  /**
   * `customer_email`: `emailCheck` is what the e-mail type's own check made
   * of the raw value, the normalised address or nothing when it is not an
   * address; then `validate_email_domain`.
   */
  function EmailField(emailCheck: Option<string>): (r: Result<string, seq<FieldFailure>>)
    requires emailCheck.Some? ==> '@' in emailCheck.value
    ensures r.Success? <==> AcceptableEmail(emailCheck)
    ensures r.Success? ==> r.value == Lower(emailCheck.value)
    ensures r.Failure? ==> r.error != [] && AllUnder(r.error, Key("customer_email"))
  {
    match emailCheck
    case None => Failure([FieldFailure([Key("customer_email")], InvalidEmail)])
    case Some(e) =>
      match ValidateEmailDomain(e)
      case Success(v) => Success(v)
      case Failure(m) => Failure([FieldFailure([Key("customer_email")], ValueError(m))])
  }

  /** An order every rule of `OrderCreate` accepts. */
  ghost predicate AcceptableOrder(raw: Order, emailCheck: Option<string>, isUuid: string -> bool)
    requires emailCheck.Some? ==> '@' in emailCheck.value
  {
    && 1 <= |raw.customerName| <= MaxNameLength
    && NamePattern(raw.customerName)
    && emailCheck.Some?
    && Lower(EmailDomain(emailCheck.value)) !in BlockedDomains
    && 1 <= |raw.items| <= MaxItems
    && AllAcceptable(raw.items, isUuid)
    && (forall i, j :: 0 <= i < j < |raw.items| ==> raw.items[i].id != raw.items[j].id)
  }

  /** An order is acceptable exactly when each of its fields is. */
  lemma AcceptableByField(raw: Order, emailCheck: Option<string>, isUuid: string -> bool)
    requires emailCheck.Some? ==> '@' in emailCheck.value
    ensures AcceptableOrder(raw, emailCheck, isUuid)
      <==> AcceptableName(raw.customerName) && AcceptableEmail(emailCheck) && AcceptableItems(raw.items, isUuid)
  {
    DistinctIds(raw.items);
  }

  function Errors<T>(r: Result<T, seq<FieldFailure>>): (fs: seq<FieldFailure>)
    ensures fs == [] <==> r.Success? || r.error == []
  {
    if r.Success? then [] else r.error
  }

  predicate OrderFieldKey(seg: LocSegment) {
    seg == Key("customer_name") || seg == Key("customer_email") || seg == Key("items")
  }

  /** The failures of the three fields, in declaration order. */
  function OrderFailures(raw: Order, emailCheck: Option<string>, isUuid: string -> bool): (fs: seq<FieldFailure>)
    requires emailCheck.Some? ==> '@' in emailCheck.value
    ensures forall f :: f in fs ==> f.loc != [] && OrderFieldKey(f.loc[0])
  {
    var name := Errors(NameField(raw.customerName));
    var email := Errors(EmailField(emailCheck));
    var items := Errors(ItemsField(raw.items, isUuid));
    assert forall f :: f in name + email + items ==> f in name || f in email || f in items;
    name + email + items
  }

  /**
   * `OrderCreate`: an accepted order has its name collapsed, its address
   * lower-cased and its items as given; a refused one carries at least one
   * failure, each under the name of one of the three fields.
   */
  function ValidateOrder(raw: Order, emailCheck: Option<string>, isUuid: string -> bool): (r: Result<Order, seq<FieldFailure>>)
    requires emailCheck.Some? ==> '@' in emailCheck.value
    ensures r.Success? <==> AcceptableOrder(raw, emailCheck, isUuid)
    ensures r.Success? ==> r.value == Order(CollapseSpaces(raw.customerName), Lower(emailCheck.value), raw.items)
    ensures r.Failure? ==> r.error != []
    ensures r.Failure? ==> forall f :: f in r.error ==> f.loc != [] && OrderFieldKey(f.loc[0])
  {
    var name := NameField(raw.customerName);
    var email := EmailField(emailCheck);
    var items := ItemsField(raw.items, isUuid);
    AcceptableByField(raw, emailCheck, isUuid);
    if name.Success? && email.Success? && items.Success? then
      Success(Order(name.value, email.value, items.value))
    else
      Failure(OrderFailures(raw, emailCheck, isUuid))
  }

  /** Some failure in `fs` lies under the field `seg`. */
  predicate FlagsField(fs: seq<FieldFailure>, seg: LocSegment) {
    exists f :: f in fs && f.loc != [] && f.loc[0] == seg
  }

  lemma FlagsFieldAppend(a: seq<FieldFailure>, b: seq<FieldFailure>, seg: LocSegment)
    ensures FlagsField(a + b, seg) <==> FlagsField(a, seg) || FlagsField(b, seg)
  {
    if FlagsField(a + b, seg) {
      var f :| f in a + b && f.loc != [] && f.loc[0] == seg;
      assert f in a || f in b;
    }
    if FlagsField(a, seg) {
      var f :| f in a && f.loc != [] && f.loc[0] == seg;
      assert f in a + b;
    }
    if FlagsField(b, seg) {
      var f :| f in b && f.loc != [] && f.loc[0] == seg;
      assert f in a + b;
    }
  }

  lemma FlagsFieldUnder(fs: seq<FieldFailure>, field: LocSegment, seg: LocSegment)
    requires AllUnder(fs, field)
    ensures FlagsField(fs, seg) <==> fs != [] && field == seg
  {
    if fs != [] && field == seg {
      assert fs[0] in fs;
    }
  }

  /**
   * Failures are collected across fields: each field of the order is
   * reported exactly when it breaks one of its rules, whatever the others do.
   */
  lemma OrderFailuresPerField(raw: Order, emailCheck: Option<string>, isUuid: string -> bool)
    requires emailCheck.Some? ==> '@' in emailCheck.value
    ensures var fs := OrderFailures(raw, emailCheck, isUuid);
      && (FlagsField(fs, Key("customer_name")) <==> !AcceptableName(raw.customerName))
      && (FlagsField(fs, Key("customer_email")) <==> !AcceptableEmail(emailCheck))
      && (FlagsField(fs, Key("items")) <==> !AcceptableItems(raw.items, isUuid))
  {
    var name := Errors(NameField(raw.customerName));
    var email := Errors(EmailField(emailCheck));
    var items := Errors(ItemsField(raw.items, isUuid));
    assert OrderFailures(raw, emailCheck, isUuid) == (name + email) + items;
    FieldReported(name, email, items, Key("customer_name"));
    FieldReported(name, email, items, Key("customer_email"));
    FieldReported(name, email, items, Key("items"));
  }

  lemma FieldReported(name: seq<FieldFailure>, email: seq<FieldFailure>, items: seq<FieldFailure>, seg: LocSegment)
    requires AllUnder(name, Key("customer_name")) && AllUnder(email, Key("customer_email")) && AllUnder(items, Key("items"))
    ensures seg == Key("customer_name") ==> (FlagsField((name + email) + items, seg) <==> name != [])
    ensures seg == Key("customer_email") ==> (FlagsField((name + email) + items, seg) <==> email != [])
    ensures seg == Key("items") ==> (FlagsField((name + email) + items, seg) <==> items != [])
  {
    FlagsFieldAppend(name + email, items, seg);
    FlagsFieldAppend(name, email, seg);
    FlagsFieldUnder(name, Key("customer_name"), seg);
    FlagsFieldUnder(email, Key("customer_email"), seg);
    FlagsFieldUnder(items, Key("items"), seg);
  }

  /** What every order that passed validation satisfies. */
  ghost predicate ValidatedOrder(o: Order, isUuid: string -> bool) {
    && SingleSpaced(o.customerName)
    && |o.customerName| <= MaxNameLength
    && (forall i :: 0 <= i < |o.customerName| ==>
          IsAsciiLetter(o.customerName[i]) || o.customerName[i] in " -'")
    && '@' in o.customerEmail
    && Lower(o.customerEmail) == o.customerEmail
    && Lower(EmailDomain(o.customerEmail)) !in BlockedDomains
    && 1 <= |o.items| <= MaxItems
    && AllAcceptable(o.items, isUuid)
    && Distinct(Ids(o.items))
  }

  /**
   * A validated order has a single-spaced name of at most 255 letters,
   * spaces, hyphens and apostrophes, a lower-case address on an unblocked
   * domain, and 1 to 50 valid items with distinct ids.
   */
  lemma ValidateOrderSound(raw: Order, emailCheck: Option<string>, isUuid: string -> bool)
    requires emailCheck.Some? ==> '@' in emailCheck.value
    requires ValidateOrder(raw, emailCheck, isUuid).Success?
    ensures ValidatedOrder(ValidateOrder(raw, emailCheck, isUuid).value, isUuid)
  {
    var o := ValidateOrder(raw, emailCheck, isUuid).value;
    var n := ValidateName(raw.customerName);
    assert o.customerName == n.value;
    var e := emailCheck.value;
    ValidateEmailDomainIdempotent(e);
    LowerIdempotent(e);
    assert Lower(EmailDomain(o.customerEmail)) !in BlockedDomains;
  }
}
