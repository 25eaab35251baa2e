/** The issue screen's cart: what one typed entry, a popup choice, a damage confirmation
    or a removal does to the cart, and the checks it applies before `create_transaction`
    is called. The four revisions of the screen share this logic unchanged. */
module Cart {
  import opened Options
  import opened Seqs
  import opened Text
  import opened Store
  import opened Workflow
  import opened Queries

  /** What the screen shows after one action. */
  datatype Outcome =
    | Added
    | AlreadyInCart
    | AlreadyIssued
    | NeedsConfirmation(item: Item)
    | CannotIssue(status: string)
    | EmptyInput
    | NoMatch
    | ChooseFrom(candidates: seq<Item>)

  datatype Step = Step(cart: seq<Item>, outcome: Outcome)

  predicate InCart(cart: seq<Item>, id: int) {
    exists k :: 0 <= k < |cart| && cart[k].id == id
  }

  /** No item is in the cart twice. */
  predicate DistinctIds(cart: seq<Item>) {
    forall i, j :: 0 <= i < j < |cart| ==> cart[i].id != cart[j].id
  }

  /** `_add_item_to_cart(item)`: refused when an item with the same id is already in the
      cart, appended otherwise. */
  function AddItemToCart(cart: seq<Item>, item: Item): (r: Step)
    ensures InCart(cart, item.id) <==> r.outcome == AlreadyInCart
    ensures InCart(cart, item.id) ==> r.cart == cart
    ensures !InCart(cart, item.id) ==> r.outcome == Added && r.cart == cart + [item]
  {
    match FirstIndex(cart, (c: Item) => c.id == item.id)
    case Some(_) => Step(cart, AlreadyInCart)
    case None => Step(cart + [item], Added)
  }

  /** `_handle_serial_number(item)`: dispatch on the lower-cased status; only an available
      item goes straight into the cart, a damaged one waits for confirmation, an issued
      one is refused, and any other status is reported as not issuable. */
  function HandleSerial(cart: seq<Item>, item: Item): (r: Step)
    ensures Lower(item.status) == "issued" <==> r.outcome == AlreadyIssued
    ensures Lower(item.status) == "damaged" <==> r.outcome == NeedsConfirmation(item)
    ensures Lower(item.status) != "available" ==> r.cart == cart
    ensures Lower(item.status) !in {"issued", "damaged", "available"} ==> r.outcome == CannotIssue(Lower(item.status))
    ensures Lower(item.status) == "available" ==> r == AddItemToCart(cart, item)
  {
    var status := Lower(item.status);
    if status == "issued" then Step(cart, AlreadyIssued)
    else if status == "damaged" then Step(cart, NeedsConfirmation(item))
    else if status == "available" then AddItemToCart(cart, item)
    else Step(cart, CannotIssue(status))
  }

  /** `_confirm_damaged_issue(item)`: the warned-about item goes in through the same duplicate check. */
  function ConfirmDamaged(cart: seq<Item>, item: Item): (r: Step)
    ensures r.cart == cart || r.cart == cart + [item]
    ensures r.cart == cart + [item] <==> !InCart(cart, item.id)
  {
    AddItemToCart(cart, item)
  }

  /** `_handle_component_name(name)`: the available units of the named category are offered
      in a popup, or the screen reports that none exist. The cart is not touched. */
  function HandleName(s: Store, cart: seq<Item>, name: string): (r: Step)
    ensures r.cart == cart
    ensures r.outcome == NoMatch <==> AvailableItemsByName(s, name) == []
    ensures r.outcome != NoMatch ==> r.outcome == ChooseFrom(AvailableItemsByName(s, name))
  {
    var candidates := AvailableItemsByName(s, name);
    if candidates == [] then Step(cart, NoMatch) else Step(cart, ChooseFrom(candidates))
  }

  /** `_add_to_cart()`: the entry is stripped; an empty entry is refused; a serial match is
      handled by status; otherwise the entry is taken as a component name. */
  function AddByInput(s: Store, cart: seq<Item>, input: string): (r: Step)
    ensures Strip(input) == [] <==> r.outcome == EmptyInput
    ensures Strip(input) == [] ==> r.cart == cart
    ensures Strip(input) != [] && ItemBySerial(s.items, Strip(input)).Some? ==>
      r == HandleSerial(cart, ItemBySerial(s.items, Strip(input)).value)
    ensures Strip(input) != [] && ItemBySerial(s.items, Strip(input)).None? ==> r == HandleName(s, cart, Strip(input))
  {
    var text := Strip(input);
    if text == [] then Step(cart, EmptyInput)
    else match ItemBySerial(s.items, text)
      case Some(item) => HandleSerial(cart, item)
      case None => HandleName(s, cart, text)
  }

  /** `_remove_from_cart(item)`: every cart entry with the item's id goes; the rest stay in order. */
  function RemoveFromCart(cart: seq<Item>, item: Item): (r: seq<Item>)
    ensures !InCart(r, item.id)
    ensures forall x :: x in r <==> x in cart && x.id != item.id
    ensures KeepsOrder(cart, r)
  {
    var r := Filter(cart, (c: Item) => c.id != item.id);
    assert forall k :: 0 <= k < |r| ==> r[k] in r;
    r
  }

  /** Removing an item just added gives back the cart it was added to. */
  lemma RemoveUndoesAdd(cart: seq<Item>, item: Item)
    requires !InCart(cart, item.id)
    ensures RemoveFromCart(AddItemToCart(cart, item).cart, item) == cart
  {
    var keep := (c: Item) => c.id != item.id;
    FilterAppend(cart, [item], keep);
    FilterKeepsAll(cart, keep);
    assert Filter([item], keep) == [];
  }

  /** Adding never puts the same item in the cart twice. */
  lemma AddKeepsDistinct(cart: seq<Item>, item: Item)
    requires DistinctIds(cart)
    ensures DistinctIds(AddItemToCart(cart, item).cart)
  {
  }

  /** An item whose status reads `issued` in any case never enters the cart by serial. */
  lemma IssuedNeverAdded(cart: seq<Item>, item: Item)
    requires Lower(item.status) == "issued"
    ensures HandleSerial(cart, item).cart == cart
  {
  }

  // ---------------------------------------------------------------------------
  // From the cart to create_transaction

  /** Every cart entry is a unit of the store that is not `Issued`, and none is there twice. */
  ghost predicate CartSound(s: Store, cart: seq<Item>) {
    DistinctIds(cart) && forall k :: 0 <= k < |cart| ==> cart[k] in s.items && cart[k].status != ISSUED
  }

  lemma LowerIssued()
    ensures Lower(ISSUED) == "issued"
  {
  }

  lemma AddSoundItem(s: Store, cart: seq<Item>, item: Item)
    requires CartSound(s, cart) && item in s.items && item.status != ISSUED
    ensures CartSound(s, AddItemToCart(cart, item).cart)
  {
  }

  /** Whatever is typed, the cart stays sound. */
  lemma AddByInputKeepsCartSound(s: Store, cart: seq<Item>, input: string)
    requires CartSound(s, cart)
    ensures CartSound(s, AddByInput(s, cart, input).cart)
  {
    var text := Strip(input);
    if text != [] {
      match ItemBySerial(s.items, text) {
        case Some(item) =>
          LowerIssued();
          if Lower(item.status) == "available" {
            AddSoundItem(s, cart, item);
          }
        case None =>
      }
    }
  }

  /** Choosing a unit from the name popup keeps the cart sound. */
  lemma PickKeepsCartSound(s: Store, cart: seq<Item>, name: string, k: nat)
    requires CartSound(s, cart) && k < |AvailableItemsByName(s, name)|
    ensures CartSound(s, AddItemToCart(cart, AvailableItemsByName(s, name)[k]).cart)
  {
    var item := AvailableItemsByName(s, name)[k];
    assert item in AvailableItemsByName(s, name);
    AddSoundItem(s, cart, item);
  }

  /** Confirming the damage warning raised for a typed serial keeps the cart sound. */
  lemma ConfirmKeepsCartSound(s: Store, cart: seq<Item>, input: string)
    requires CartSound(s, cart) && AddByInput(s, cart, input).outcome.NeedsConfirmation?
    ensures CartSound(s, ConfirmDamaged(cart, AddByInput(s, cart, input).outcome.item).cart)
  {
    var text := Strip(input);
    var item := ItemBySerial(s.items, text).value;
    assert Lower(item.status) == "damaged";
    LowerIssued();
    AddSoundItem(s, cart, item);
  }

  /** Removal keeps the cart sound. */
  lemma RemoveKeepsCartSound(s: Store, cart: seq<Item>, item: Item)
    requires CartSound(s, cart)
    ensures CartSound(s, RemoveFromCart(cart, item))
  {
    var r := RemoveFromCart(cart, item);
    forall i, j | 0 <= i < j < |r|
      ensures r[i].id != r[j].id
    {
      assert InOrder(cart, r[i], r[j]);
      var a, b :| 0 <= a < b < |cart| && cart[a] == r[i] && cart[b] == r[j];
    }
  }

  function CartIds(cart: seq<Item>): (r: seq<int>)
    ensures |r| == |cart| && forall k :: 0 <= k < |cart| ==> r[k] == cart[k].id
  {
    seq(|cart|, k requires 0 <= k < |cart| => cart[k].id)
  }

  /** A sound cart satisfies the precondition under which issuing keeps the loan invariant. */
  lemma SoundCartMeetsIssueGuard(s: Store, cart: seq<Item>)
    requires DenseIds(s) && CartSound(s, cart)
    ensures IssueGuard(s, CartIds(cart))
  {
    var ids := CartIds(cart);
    forall i | 0 <= i < |ids|
      ensures 1 <= ids[i] <= |s.items| && s.items[ids[i] - 1].status != ISSUED
    {
      var k :| 0 <= k < |s.items| && s.items[k] == cart[i];
      assert s.items[k].id == k + 1;
    }
  }

  /** Why `_finalize_issue` stops before creating a transaction. */
  datatype Refusal = EmptyCart | NoIssuer | NoStudent

  datatype Finalized = Refused(reason: Refusal) | Created(issued: Issued)

  /** `_finalize_issue()`: an empty cart, a missing or zero issuer and an unresolved student
      are refused in that order; otherwise one transaction is created for the cart's ids. */
  function FinalizeIssue(s: Store, cart: seq<Item>, issuerId: Option<int>, student: Option<Student>, now: int): (r: Finalized)
    ensures cart == [] <==> r == Refused(EmptyCart)
    ensures cart != [] && IssuerField(issuerId).None? ==> r == Refused(NoIssuer)
    ensures cart != [] && IssuerField(issuerId).Some? && student.None? ==> r == Refused(NoStudent)
    ensures r.Created? <==> cart != [] && IssuerField(issuerId).Some? && student.Some?
    ensures r.Created? ==> r.issued == CreateTransaction(s, student.value.id, CartIds(cart), issuerId, now)
    ensures r.Created? ==> r.issued.store.transactions[|s.transactions|].issuerId == issuerId
  {
    if cart == [] then Refused(EmptyCart)
    else if issuerId.None? || issuerId.value == 0 then Refused(NoIssuer)
    else if student.None? then Refused(NoStudent)
    else Created(CreateTransaction(s, student.value.id, CartIds(cart), issuerId, now))
  }

  /** End to end: a transaction created from a sound cart keeps the loan invariant. */
  lemma FinalizeKeepsLoanInvariant(s: Store, cart: seq<Item>, issuerId: Option<int>, student: Option<Student>, now: int)
    requires LoanInvariant(s) && CartSound(s, cart)
    ensures var r := FinalizeIssue(s, cart, issuerId, student, now);
      r.Created? ==> LoanInvariant(r.issued.store)
  {
    if cart != [] && IssuerField(issuerId).Some? && student.Some? {
      SoundCartMeetsIssueGuard(s, cart);
      IssueKeepsLoanInvariant(s, student.value.id, CartIds(cart), issuerId, now);
    }
  }
}
