/**
 * The order endpoint after validation: `create_order_endpoint` sums the
 * validated items and calls `create_order`, whose checks (before any
 * database work) sanitise the name and address once more, insist both are
 * non-empty, insist on at least one item and bound the total to
 * (0, 100000]. A `ValueError` from those checks becomes a 422 reply whose
 * detail is the error's message.
 */
module CreateOrder {
  import opened Wrappers
  import opened Text
  import opened PyWords
  import opened Sanitize
  import opened OrderModels

  const RequiredMessage := "Customer name and email are required"
  const NoItemsMessage := "Order must contain at least one item"
  const TotalMessage := "Invalid total amount"

  /** The largest total `create_order` lets through. */
  const MaxTotal := 100000.0

  const UnprocessableEntity := 422

  /** The name and address `create_order` goes on to store. */
  datatype Customer = Customer(name: string, email: string)

  /**
   * The checks at the head of `create_order`, for an order of `itemCount`
   * items totalling `total`. The first check that fails decides the message:
   * an empty name or address after sanitising, then no items, then a total
   * outside (0, 100000]. Passing them yields the sanitised name and address.
   */
  function CreateOrderChecks(name: string, email: string, itemCount: nat, total: real): (r: Result<Customer, string>)
    ensures r.Success? ==> r.value == Customer(Sanitized(name, DefaultMaxLength), Sanitized(email, DefaultMaxLength))
    ensures r.Success? ==> r.value.name != [] && r.value.email != [] && itemCount > 0 && 0.0 < total <= MaxTotal
    ensures r == Failure(RequiredMessage)
      <==> Sanitized(name, DefaultMaxLength) == [] || Sanitized(email, DefaultMaxLength) == []
    ensures r == Failure(NoItemsMessage)
      <==> Sanitized(name, DefaultMaxLength) != [] && Sanitized(email, DefaultMaxLength) != [] && itemCount == 0
    ensures r == Failure(TotalMessage)
      <==> Sanitized(name, DefaultMaxLength) != [] && Sanitized(email, DefaultMaxLength) != [] && itemCount > 0
           && !(0.0 < total <= MaxTotal)
  {
    var customerName := Sanitized(name, DefaultMaxLength);
    var customerEmail := Sanitized(email, DefaultMaxLength);
    if customerName == [] || customerEmail == [] then
      Failure(RequiredMessage)
    else if itemCount == 0 then
      Failure(NoItemsMessage)
    else if total <= 0.0 || total > MaxTotal then
      Failure(TotalMessage)
    else
      Success(Customer(customerName, customerEmail))
  }

  /** What the endpoint does with a validated order: hand it on for storage, or refuse it. */
  datatype Reply = Stored(customer: Customer, total: real) | Refused(status: int, detail: string)

  /** An item's contribution to the total: its price times its quantity. */
  function Amount(item: OrderItem): real {
    item.price * item.quantity as real
  }

  /** The total of the items as exact numbers: `Amount` summed over the items. */
  function OrderTotal(items: seq<OrderItem>): real {
    if items == [] then 0.0 else Amount(items[0]) + OrderTotal(items[1..])
  }

  /**
   * `create_order_endpoint` for a validated `order` whose items sum to
   * `total`: a refusal by the checks is a 422 carrying the check's message;
   * otherwise the sanitised customer and the total go on to storage.
   */
  function SubmitOrder(order: Order, total: real): (reply: Reply)
    ensures reply.Refused? ==> reply.status == UnprocessableEntity
    ensures reply.Refused? ==> reply.detail in [RequiredMessage, NoItemsMessage, TotalMessage]
    ensures reply.Refused? <==> CreateOrderChecks(order.customerName, order.customerEmail, |order.items|, total).Failure?
    ensures reply.Refused? ==> reply.detail == CreateOrderChecks(order.customerName, order.customerEmail, |order.items|, total).error
    ensures reply.Stored? ==> reply.customer == CreateOrderChecks(order.customerName, order.customerEmail, |order.items|, total).value
    ensures reply.Stored? ==> reply.total == total && 0.0 < total <= MaxTotal
                              && reply.customer.name != [] && reply.customer.email != []
  {
    match CreateOrderChecks(order.customerName, order.customerEmail, |order.items|, total)
    case Success(customer) => Stored(customer, total)
    case Failure(message) => Refused(UnprocessableEntity, message)
  }

  // ------------------------------------------------------------ addresses

  /**
   * An address as the e-mail type hands it over, as far as sanitising is
   * concerned: it holds an '@', fits 255 code points and holds neither NUL
   * nor whitespace.
   */
  predicate PlainAddress(e: string) {
    && '@' in e
    && |e| <= DefaultMaxLength
    && forall i :: 0 <= i < |e| ==> e[i] != '\0' && !IsSpace(e[i])
  }

  /** Lower-casing keeps an address plain. */
  lemma LowerPlainAddress(e: string)
    requires PlainAddress(e)
    ensures PlainAddress(Lower(e))
  {
    var i :| 0 <= i < |e| && e[i] == '@';
    assert Lower(e)[i] == '@';
    forall j | 0 <= j < |e|
      ensures Lower(e)[j] != '\0' && !IsSpace(Lower(e)[j])
    {
      if 'A' <= e[j] <= 'Z' {
        VisibleIsNotSpace(Lower(e)[j]);
      }
    }
  }

  /** Sanitising leaves a plain address alone. */
  lemma PlainAddressKept(e: string)
    requires PlainAddress(e)
    ensures Sanitized(e, DefaultMaxLength) == e
  {
    assert e != [];
    assert Trimmed(e);
    SanitizeKeepsClean(e, DefaultMaxLength);
  }

  /** Sanitising leaves the name of a validated order alone. */
  lemma ValidatedNameKept(o: Order, isUuid: string -> bool)
    requires ValidatedOrder(o, isUuid)
    ensures Sanitized(o.customerName, DefaultMaxLength) == o.customerName
  {
    var n := o.customerName;
    forall i | 0 <= i < |n|
      ensures n[i] != '\0'
    {
      assert IsAsciiLetter(n[i]) || n[i] in " -'";
    }
    SanitizeKeepsClean(n, DefaultMaxLength);
  }

  // ------------------------------------------------------------- orders

  /**
   * For a validated order with a plain address the second sanitising
   * changes nothing and the item check never fires: the order is refused
   * for an empty name or for its total, and stored as validated otherwise.
   */
  lemma ValidatedOrderChecks(o: Order, isUuid: string -> bool, total: real)
    requires ValidatedOrder(o, isUuid) && PlainAddress(o.customerEmail)
    ensures CreateOrderChecks(o.customerName, o.customerEmail, |o.items|, total)
      == if o.customerName == [] then Failure(RequiredMessage)
         else if 0.0 < total <= MaxTotal then Success(Customer(o.customerName, o.customerEmail))
         else Failure(TotalMessage)
  {
    ValidatedNameKept(o, isUuid);
    PlainAddressKept(o.customerEmail);
  }

  /**
   * A name of whitespace only passes validation (it matches the name
   * pattern) and is collapsed to the empty string, so an otherwise valid
   * order with such a name is refused by the endpoint with a 422, whatever
   * its total.
   */
  lemma BlankNameRefused(raw: Order, emailCheck: Option<string>, isUuid: string -> bool, total: real)
    requires emailCheck.Some? ==> '@' in emailCheck.value
    requires 1 <= |raw.customerName| <= MaxNameLength && AllSpace(raw.customerName)
    requires AcceptableEmail(emailCheck) && AcceptableItems(raw.items, isUuid)
    ensures ValidateOrder(raw, emailCheck, isUuid).Success?
    ensures ValidateOrder(raw, emailCheck, isUuid).value.customerName == []
    ensures SubmitOrder(ValidateOrder(raw, emailCheck, isUuid).value, total)
         == Refused(UnprocessableEntity, RequiredMessage)
  {
    assert NamePattern(raw.customerName);
    AcceptableByField(raw, emailCheck, isUuid);
  }

  lemma MulNonnegative(a: real, b: real)
    requires a >= 0.0 && b >= 0.0
    ensures a * b >= 0.0
  {
  }

  /** An item's amount lies in (0, 1000000]. */
  lemma ItemAmount(item: OrderItem, isUuid: string -> bool)
    requires AcceptableItem(item, isUuid)
    ensures 0.0 < Amount(item) <= 1000000.0
  {
    AmountBound(item.price, item.quantity);
    assert Amount(item) == item.price * item.quantity as real;
  }

  /** A price in (0, 10000] times a quantity in [1, 100] lies in (0, 1000000]. */
  lemma AmountBound(price: real, quantity: int)
    requires 0.0 < price <= 10000.0 && 1 <= quantity <= 100
    ensures 0.0 < price * quantity as real <= 1000000.0
  {
    var q := quantity as real;
    MulNonnegative(10000.0 - price, q);
    assert (10000.0 - price) * q == 10000.0 * q - price * q;
    MulNonnegative(price, q - 1.0);
    assert price * (q - 1.0) == price * q - price;
  }

  /** Valid items total more than nothing and at most 1000000 each. */
  lemma {:induction false} TotalBounds(items: seq<OrderItem>, isUuid: string -> bool)
    requires AllAcceptable(items, isUuid)
    ensures 0.0 <= OrderTotal(items) <= |items| as real * 1000000.0
    ensures items != [] ==> 0.0 < OrderTotal(items)
  {
    if items != [] {
      var rest := items[1..];
      ItemAmount(items[0], isUuid);
      assert AllAcceptable(rest, isUuid) by {
        forall p | 0 <= p < |rest|
          ensures AcceptableItem(rest[p], isUuid)
        {
          assert rest[p] == items[p + 1];
        }
      }
      TotalBounds(rest, isUuid);
      assert |items| as real * 1000000.0 == |rest| as real * 1000000.0 + 1000000.0;
    }
  }

  /** A validated order totals more than 0 and at most 50 times 1000000. */
  lemma ValidatedTotal(o: Order, isUuid: string -> bool)
    requires ValidatedOrder(o, isUuid)
    ensures 0.0 < OrderTotal(o.items) <= 50000000.0
  {
    TotalBounds(o.items, isUuid);
  }

  /**
   * End to end, for an order whose fields all pass validation and whose
   * address is plain: the endpoint refuses it for a name of whitespace only,
   * stores the collapsed name and lower-cased address when the total lies in
   * (0, 100000], and refuses it for its total otherwise.
   */
  lemma AcceptedOrderReply(raw: Order, emailCheck: Option<string>, isUuid: string -> bool, total: real)
    requires emailCheck.Some? ==> '@' in emailCheck.value
    requires AcceptableName(raw.customerName) && AcceptableItems(raw.items, isUuid)
    requires AcceptableEmail(emailCheck) && PlainAddress(emailCheck.value)
    ensures ValidateOrder(raw, emailCheck, isUuid).Success?
    ensures ValidateOrder(raw, emailCheck, isUuid).value.items == raw.items
    ensures SubmitOrder(ValidateOrder(raw, emailCheck, isUuid).value, total)
         == if AllSpace(raw.customerName) then Refused(UnprocessableEntity, RequiredMessage)
            else if 0.0 < total <= MaxTotal
            then Stored(Customer(CollapseSpaces(raw.customerName), Lower(emailCheck.value)), total)
            else Refused(UnprocessableEntity, TotalMessage)
  {
    AcceptableByField(raw, emailCheck, isUuid);
    ValidateOrderSound(raw, emailCheck, isUuid);
    var o := ValidateOrder(raw, emailCheck, isUuid).value;
    LowerPlainAddress(emailCheck.value);
    CollapseBlank(raw.customerName);
    ValidatedOrderChecks(o, isUuid, total);
  }

  /**
   * The total bound of `create_order` is tighter than the item rules: one
   * item at the highest price, 10000, in quantity 11 passes validation and
   * totals 110000, so the endpoint refuses the order with a 422.
   */
  lemma ValidOrderOverTotal(name: string, email: string, emailCheck: Option<string>, isUuid: string -> bool, id: string)
    requires emailCheck.Some? ==> '@' in emailCheck.value
    requires AcceptableName(name) && !AllSpace(name)
    requires AcceptableEmail(emailCheck) && PlainAddress(emailCheck.value)
    requires isUuid(id)
    ensures var raw := Order(name, email, [OrderItem(id, "Kabob", 10000.0, 11)]);
      && ValidateOrder(raw, emailCheck, isUuid).Success?
      && OrderTotal(raw.items) == 110000.0
      && SubmitOrder(ValidateOrder(raw, emailCheck, isUuid).value, 110000.0) == Refused(UnprocessableEntity, TotalMessage)
  {
    var raw := Order(name, email, [OrderItem(id, "Kabob", 10000.0, 11)]);
    SingleItemAccepted(id, isUuid);
    AcceptedOrderReply(raw, emailCheck, isUuid, 110000.0);
  }

  /** One item at the highest price in quantity 11 is an acceptable item list. */
  lemma SingleItemAccepted(id: string, isUuid: string -> bool)
    requires isUuid(id)
    ensures AcceptableItems([OrderItem(id, "Kabob", 10000.0, 11)], isUuid)
  {
    assert Ids([OrderItem(id, "Kabob", 10000.0, 11)]) == [id];
  }

  /** Collapsing whitespace leaves the empty string only from whitespace. */
  lemma CollapseBlank(name: string)
    ensures CollapseSpaces(name) == [] <==> AllSpace(name)
  {
  }
}
