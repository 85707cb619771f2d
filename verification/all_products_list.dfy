/** The product list view: a pure map from the product collection and the
    signed-in user's admin flag to one list entry per product.

    Markup is abstracted away. An entry keeps the product data it displays
    and its buttons, and each button records the callback its click invokes. */
module AllProductsList {

  datatype Option<T> = None | Some(value: T)

  /** A catalog product. A missing `inStock` is falsy in the view, so it is
      `false` here. */
  datatype Product = Product(
    id: int,
    name: string,
    description: string,
    price: int,
    photoUrl: string,
    inStock: bool)

  /** The part of the user the view reads. */
  datatype User = User(isAdmin: bool)

  /** A callback invocation a button click performs, with its argument. */
  datatype Callback = HandleDelete(product: Product) | AddToCart(product: Product)

  datatype Button = Button(text: string, onClick: Callback)

  /** One list item: an empty placeholder, or the displayed product data
      followed by its buttons. */
  datatype Entry =
    | Blank
    | Listed(id: int, name: string, description: string, price: int, photoUrl: string,
             buttons: seq<Button>)

  const DeleteLabel: string := "Delete"
  const AddToCartLabel: string := "Add to Cart"

  /** The buttons an entry shows (none for a placeholder). */
  function ButtonsOf(e: Entry): seq<Button> {
    if e.Listed? then e.buttons else []
  }

  /** True iff the entry shows a button with this text. */
  predicate HasButton(e: Entry, text: string) {
    exists b :: b in ButtonsOf(e) && b.text == text
  }

  /** What clicking the first button with this text invokes, if there is one. */
  function Click(e: Entry, text: string): (c: Option<Callback>)
    ensures c.Some? <==> HasButton(e, text)
  {
    ClickIn(ButtonsOf(e), text)
  }

  function ClickIn(bs: seq<Button>, text: string): (c: Option<Callback>)
    ensures c.Some? <==> exists b :: b in bs && b.text == text
    ensures c.Some? ==> exists b :: b in bs && b.text == text && b.onClick == c.value
  {
    if |bs| == 0 then None
    else if bs[0].text == text then Some(bs[0].onClick)
    else ClickIn(bs[1..], text)
  }

  /** The number of buttons with this text in a sequence of buttons. */
  function CountLabel(bs: seq<Button>, text: string): nat {
    if |bs| == 0 then 0
    else (if bs[0].text == text then 1 else 0) + CountLabel(bs[1..], text)
  }

  /** The list item for one product. An out-of-stock product yields an empty
      placeholder. An in-stock product shows its id, name, description, price
      and photo, a Delete button exactly when the user is an admin, and an
      Add to Cart button always; both buttons hand this very product to their
      callback. */
  function RenderProduct(p: Product, user: User): (e: Entry)
    ensures e.Blank? <==> !p.inStock
    ensures e.Listed? ==>
              e.id == p.id && e.name == p.name && e.description == p.description
              && e.price == p.price && e.photoUrl == p.photoUrl
    ensures e.Listed? ==> (HasButton(e, DeleteLabel) <==> user.isAdmin)
    ensures e.Listed? ==> HasButton(e, AddToCartLabel)
    ensures forall b :: b in ButtonsOf(e) ==> b.onClick.product == p
    ensures forall b :: b in ButtonsOf(e) ==>
              (b.text == DeleteLabel <==> b.onClick.HandleDelete?)
    ensures |ButtonsOf(e)| == (if !p.inStock then 0 else if user.isAdmin then 2 else 1)
  {
    if !p.inStock then Blank
    else
      var delete := if user.isAdmin then [Button(DeleteLabel, HandleDelete(p))] else [];
      var e := Listed(p.id, p.name, p.description, p.price, p.photoUrl,
                      delete + [Button(AddToCartLabel, AddToCart(p))]);
      assert Button(AddToCartLabel, AddToCart(p)) in ButtonsOf(e);
      assert user.isAdmin ==> Button(DeleteLabel, HandleDelete(p)) in ButtonsOf(e);
      e
  }

  /** The whole list: exactly one entry per product, in the products' order
      and never filtered; position `i` shows product `i` when it is in stock
      and a placeholder otherwise. */
  function Render(products: seq<Product>, user: User): (entries: seq<Entry>)
    ensures |entries| == |products|
    ensures forall i :: 0 <= i < |products| ==> (entries[i].Blank? <==> !products[i].inStock)
    ensures forall i :: 0 <= i < |products| && entries[i].Listed? ==>
              entries[i].id == products[i].id && entries[i].name == products[i].name
    ensures forall i :: 0 <= i < |products| ==>
              forall b :: b in ButtonsOf(entries[i]) ==> b.onClick.product == products[i]
  {
    if |products| == 0 then []
    else
      var rest := Render(products[1..], user);
      var entries := [RenderProduct(products[0], user)] + rest;
      assert forall i :: 1 <= i < |products| ==> entries[i] == rest[i - 1] && products[i] == products[1..][i - 1];
      entries
  }

  /** The number of in-stock products. */
  function InStockCount(products: seq<Product>): nat {
    if |products| == 0 then 0
    else (if products[0].inStock then 1 else 0) + InStockCount(products[1..])
  }

  /** The number of buttons shown across a list of entries. */
  function ButtonCount(entries: seq<Entry>): nat {
    if |entries| == 0 then 0 else |ButtonsOf(entries[0])| + ButtonCount(entries[1..])
  }

  /** The number of buttons with this text across a list of entries. */
  function LabelCount(entries: seq<Entry>, text: string): nat {
    if |entries| == 0 then 0
    else CountLabel(ButtonsOf(entries[0]), text) + LabelCount(entries[1..], text)
  }

  /** The list shows (in-stock products) x (2 for an admin, 1 otherwise)
      buttons. */
  lemma {:induction false} ButtonCountFormula(products: seq<Product>, user: User)
    ensures ButtonCount(Render(products, user))
            == InStockCount(products) * (if user.isAdmin then 2 else 1)
    decreases |products|
  {
    if |products| != 0 {
      var entries := Render(products, user);
      assert entries[1..] == Render(products[1..], user);
      ButtonCountFormula(products[1..], user);
    }
  }

  /** The entry for one product shows one Delete button if it is in stock and
      the user is an admin, and none otherwise; it shows one Add to Cart
      button if it is in stock. */
  lemma RenderProductLabelCounts(p: Product, user: User)
    ensures CountLabel(ButtonsOf(RenderProduct(p, user)), DeleteLabel)
            == (if p.inStock && user.isAdmin then 1 else 0)
    ensures CountLabel(ButtonsOf(RenderProduct(p, user)), AddToCartLabel)
            == (if p.inStock then 1 else 0)
  {
    var bs := ButtonsOf(RenderProduct(p, user));
    if p.inStock {
      assert DeleteLabel != AddToCartLabel;
      var add := [Button(AddToCartLabel, AddToCart(p))];
      assert add[1..] == [];
      assert CountLabel(add, DeleteLabel) == 0;
      assert CountLabel(add, AddToCartLabel) == 1;
      if user.isAdmin {
        assert bs == [Button(DeleteLabel, HandleDelete(p))] + add;
        assert bs[1..] == add;
      } else {
        assert bs == add;
      }
    }
  }

  /** A non-admin sees no Delete button at all; an admin sees exactly one per
      in-stock product. Every in-stock product has exactly one Add to Cart
      button, whoever the user is. */
  lemma {:induction false} DeleteGating(products: seq<Product>, user: User)
    ensures LabelCount(Render(products, user), DeleteLabel)
            == (if user.isAdmin then InStockCount(products) else 0)
    ensures LabelCount(Render(products, user), AddToCartLabel) == InStockCount(products)
    decreases |products|
  {
    if |products| != 0 {
      var entries := Render(products, user);
      assert entries[1..] == Render(products[1..], user);
      RenderProductLabelCounts(products[0], user);
      DeleteGating(products[1..], user);
    }
  }

  /** Position `i` of the list is the item for product `i`. */
  lemma {:induction false} RenderAt(products: seq<Product>, user: User, i: nat)
    requires i < |products|
    ensures Render(products, user)[i] == RenderProduct(products[i], user)
    decreases i
  {
    if i != 0 {
      assert Render(products, user)[i] == Render(products[1..], user)[i - 1];
      RenderAt(products[1..], user, i - 1);
    }
  }

  /** Clicking Delete on an in-stock entry hands exactly that product to
      `handleDelete` when the user is an admin, and there is nothing to click
      otherwise; clicking Add to Cart always hands that product to
      `addToCart`. Nothing is checked before the callback runs. */
  lemma ClickDispatchesProduct(products: seq<Product>, user: User, i: nat)
    requires i < |products| && products[i].inStock
    ensures Click(Render(products, user)[i], DeleteLabel)
            == (if user.isAdmin then Some(HandleDelete(products[i])) else None)
    ensures Click(Render(products, user)[i], AddToCartLabel) == Some(AddToCart(products[i]))
  {
    RenderAt(products, user, i);
  }

  /** An out-of-stock product renders as a placeholder carrying no product
      data and no button to click. */
  lemma OutOfStockIsBlank(products: seq<Product>, user: User, i: nat)
    requires i < |products| && !products[i].inStock
    ensures Render(products, user)[i] == Blank
    ensures Click(Render(products, user)[i], DeleteLabel) == None
    ensures Click(Render(products, user)[i], AddToCartLabel) == None
  {
  }
}
