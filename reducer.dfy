/** The store's state and its single transition function `appReducer`:
    cart, wishlist, view history and the fields replaced verbatim. */
module AppReducer {
  import opened Collections
  import opened Catalog

  /** The view history keeps at most this many product ids. */
  const HistoryCap: nat := 20

  datatype AppState = AppState(
    products: seq<Product>,
    cart: seq<CartItem>,
    user: Option<User>,
    wishlist: seq<string>,
    searchQuery: string,
    selectedCategory: string,
    recommendations: seq<Product>)

  /** The closed set of tagged actions, plus whatever else a caller may
      dispatch at run time (handled by the reducer's default branch). */
  datatype Action =
    | AddToCart(product: Product)
    | RemoveFromCart(productId: string)
    | UpdateCartQuantity(productId: string, quantity: int)
    | AddToWishlist(productId: string)
    | RemoveFromWishlist(productId: string)
    | SetSearchQuery(query: string)
    | SetCategory(category: string)
    | SetUser(newUser: User)
    | AddToViewHistory(productId: string)
    | UpdateRecommendations(recommended: seq<Product>)
    | ClearCart
    | Unrecognized(kind: string)

  /** The user the store starts with. */
  const DefaultUser: User := User("1", "John Doe", "john@example.com", ["Electronics", "Sports"], [])

  /** The store's state before any action, over a given catalog. */
  function InitialState(catalog: seq<Product>): (s: AppState)
    ensures s.products == catalog
    ensures s.cart == [] && s.wishlist == [] && s.recommendations == []
    ensures s.user == Some(DefaultUser) && s.user.value.preferences == ["Electronics", "Sports"]
    ensures CartValid(s.cart) && NoDups(s.wishlist)
    ensures s.user.Some? && NoDups(s.user.value.viewHistory)
    ensures s.selectedCategory == AllCategories && s.searchQuery == []
  {
    AppState(catalog, [], Some(DefaultUser), [], "", AllCategories, [])
  }

  // ---------------------------------------------------------------------------
  // Cart

  predicate InCart(cart: seq<CartItem>, id: string) {
    exists i :: 0 <= i < |cart| && cart[i].product.id == id
  }

  /** At most one cart line per product id. */
  predicate UniqueIds(cart: seq<CartItem>) {
    forall i, j :: 0 <= i < j < |cart| ==> cart[i].product.id != cart[j].product.id
  }

  /** The cart invariant: one line per product, every quantity at least 1. */
  predicate CartValid(cart: seq<CartItem>) {
    UniqueIds(cart) && forall i :: 0 <= i < |cart| ==> cart[i].quantity >= 1
  }

  predicate HasPositiveQuantity(item: CartItem) {
    item.quantity > 0
  }

  /** The `map` of ADD_TO_CART on an existing line. */
  function IncrementQuantity(cart: seq<CartItem>, id: string): seq<CartItem> {
    seq(|cart|, i requires 0 <= i < |cart| =>
      if cart[i].product.id == id then cart[i].(quantity := cart[i].quantity + 1) else cart[i])
  }

  /** The `map` of UPDATE_CART_QUANTITY, before lines are dropped. */
  function SetQuantity(cart: seq<CartItem>, id: string, q: int): seq<CartItem> {
    seq(|cart|, i requires 0 <= i < |cart| =>
      if cart[i].product.id == id then cart[i].(quantity := q) else cart[i])
  }

  /** The number shown on the cart badge: the sum of all quantities. */
  function CartItemCount(cart: seq<CartItem>): (n: int)
    ensures (forall i :: 0 <= i < |cart| ==> cart[i].quantity >= 1) ==> n >= |cart|
    ensures |cart| == 0 ==> n == 0
  {
    if |cart| == 0 then 0 else cart[0].quantity + CartItemCount(cart[1..])
  }

  // ---------------------------------------------------------------------------
  // Wishlist and view history

  function Without(ids: seq<string>, id: string): seq<string> {
    Filter(ids, x => x != id)
  }

  /** Move `id` to the front of `history`, dropping its older occurrences,
      and keep the first `HistoryCap` entries. */
  function PushHistory(history: seq<string>, id: string): (h: seq<string>)
    ensures 1 <= |h| <= HistoryCap && h[0] == id
    ensures id !in h[1..]
    ensures forall x :: x in h[1..] ==> x in history
  {
    var rest := Without(history, id);
    var full := [id] + rest;
    var k := Min(HistoryCap, |full|);
    assert full[..k][1..] == rest[..k - 1];
    assert id !in rest;
    assert forall x :: x in rest[..k - 1] ==> x in rest;
    full[..k]
  }

  // ---------------------------------------------------------------------------
  // The reducer

  /** `appReducer`: total, never changes the catalog. */
  function Reducer(s: AppState, a: Action): (r: AppState)
    ensures r.products == s.products
  {
    match a
    case AddToCart(p) =>
      if InCart(s.cart, p.id) then s.(cart := IncrementQuantity(s.cart, p.id))
      else s.(cart := s.cart + [CartItem(p, 1)])
    case RemoveFromCart(id) =>
      s.(cart := Filter(s.cart, (item: CartItem) => item.product.id != id))
    case UpdateCartQuantity(id, q) =>
      s.(cart := Filter(SetQuantity(s.cart, id, q), HasPositiveQuantity))
    case AddToWishlist(id) =>
      if id in s.wishlist then s else s.(wishlist := s.wishlist + [id])
    case RemoveFromWishlist(id) =>
      s.(wishlist := Without(s.wishlist, id))
    case SetSearchQuery(q) => s.(searchQuery := q)
    case SetCategory(c) => s.(selectedCategory := c)
    case SetUser(u) => s.(user := Some(u))
    case AddToViewHistory(id) =>
      if s.user.None? then s
      else s.(user := Some(s.user.value.(viewHistory := PushHistory(s.user.value.viewHistory, id))))
    case UpdateRecommendations(list) => s.(recommendations := list)
    case ClearCart => s.(cart := [])
    case Unrecognized(_) => s
  }

  // ---------------------------------------------------------------------------
  // Frame conditions

  /** Each action touches only its own field; the setters store their payload
      verbatim; an unrecognized action and a view with no user change nothing. */
  lemma ReducerFrame(s: AppState, a: Action)
    ensures var r := Reducer(s, a);
      && (a.AddToCart? || a.RemoveFromCart? || a.UpdateCartQuantity? ==> r == s.(cart := r.cart))
      && (a.AddToWishlist? || a.RemoveFromWishlist? ==> r == s.(wishlist := r.wishlist))
      && (a.SetSearchQuery? ==> r == s.(searchQuery := a.query))
      && (a.SetCategory? ==> r == s.(selectedCategory := a.category))
      && (a.SetUser? ==> r == s.(user := Some(a.newUser)))
      && (a.UpdateRecommendations? ==> r == s.(recommendations := a.recommended))
      && (a.ClearCart? ==> r == s.(cart := []))
      && (a.Unrecognized? ==> r == s)
      && (a.AddToViewHistory? && s.user.None? ==> r == s)
      && (a.AddToViewHistory? && s.user.Some? ==>
            r.user.Some? && r == s.(user := Some(s.user.value.(viewHistory := r.user.value.viewHistory))))
  {
  }

  // ---------------------------------------------------------------------------
  // Cart properties

  lemma {:induction false} FilterKeepsUniqueIds(cart: seq<CartItem>, keep: CartItem -> bool)
    requires UniqueIds(cart)
    ensures UniqueIds(Filter(cart, keep))
  {
    if |cart| > 0 {
      var tail := cart[1..];
      assert UniqueIds(tail) by {
        forall i, j | 0 <= i < j < |tail| ensures tail[i].product.id != tail[j].product.id {
          assert tail[i] == cart[i + 1] && tail[j] == cart[j + 1];
        }
      }
      FilterKeepsUniqueIds(tail, keep);
      var rest := Filter(tail, keep);
      if keep(cart[0]) {
        forall k | 0 <= k < |rest| ensures rest[k].product.id != cart[0].product.id {
          assert rest[k] in tail;
          var m :| 0 <= m < |tail| && tail[m] == rest[k];
          assert tail[m] == cart[m + 1];
        }
        var r := [cart[0]] + rest;
        forall i, j | 0 <= i < j < |r| ensures r[i].product.id != r[j].product.id {
          if i == 0 {
            assert r[j] == rest[j - 1];
          } else {
            assert r[i] == rest[i - 1] && r[j] == rest[j - 1];
          }
        }
      }
    }
  }

  lemma FilterKeepsCartValid(cart: seq<CartItem>, keep: CartItem -> bool)
    requires CartValid(cart)
    ensures CartValid(Filter(cart, keep))
  {
    FilterKeepsUniqueIds(cart, keep);
    var r := Filter(cart, keep);
    forall i | 0 <= i < |r| ensures r[i].quantity >= 1 {
      assert r[i] in cart;
    }
  }

  /** ADD_TO_CART: an existing line gains exactly one unit and nothing else
      moves; a new product is appended with quantity 1. */
  lemma AddToCartSpec(s: AppState, p: Product)
    ensures var c := Reducer(s, AddToCart(p)).cart;
      && InCart(c, p.id)
      && (InCart(s.cart, p.id) ==>
            |c| == |s.cart| &&
            forall i :: 0 <= i < |c| ==>
              c[i] == if s.cart[i].product.id == p.id
                      then s.cart[i].(quantity := s.cart[i].quantity + 1)
                      else s.cart[i])
      && (!InCart(s.cart, p.id) ==> c == s.cart + [CartItem(p, 1)])
  {
    var c := Reducer(s, AddToCart(p)).cart;
    if !InCart(s.cart, p.id) {
      assert c[|s.cart|].product.id == p.id;
    } else {
      var k :| 0 <= k < |s.cart| && s.cart[k].product.id == p.id;
      assert c[k].product.id == p.id;
    }
  }

  lemma {:induction false} CartItemCountAppend(cart: seq<CartItem>, item: CartItem)
    ensures CartItemCount(cart + [item]) == CartItemCount(cart) + item.quantity
  {
    if |cart| > 0 {
      assert (cart + [item])[1..] == cart[1..] + [item];
      CartItemCountAppend(cart[1..], item);
    }
  }

  lemma {:induction false} IncrementQuantityCount(cart: seq<CartItem>, id: string)
    requires UniqueIds(cart)
    ensures CartItemCount(IncrementQuantity(cart, id)) == CartItemCount(cart) + if InCart(cart, id) then 1 else 0
  {
    if |cart| > 0 {
      var tail := cart[1..];
      assert UniqueIds(tail) by {
        forall i, j | 0 <= i < j < |tail| ensures tail[i].product.id != tail[j].product.id {
          assert tail[i] == cart[i + 1] && tail[j] == cart[j + 1];
        }
      }
      IncrementQuantityCount(tail, id);
      assert IncrementQuantity(cart, id)[1..] == IncrementQuantity(tail, id);
      if cart[0].product.id == id {
        assert !InCart(tail, id) by {
          forall k | 0 <= k < |tail| ensures tail[k].product.id != id {
            assert tail[k] == cart[k + 1];
          }
        }
      } else {
        assert InCart(cart, id) == InCart(tail, id) by {
          if InCart(cart, id) {
            var k :| 0 <= k < |cart| && cart[k].product.id == id;
            assert tail[k - 1] == cart[k];
          }
          if InCart(tail, id) {
            var k :| 0 <= k < |tail| && tail[k].product.id == id;
            assert cart[k + 1] == tail[k];
          }
        }
      }
    }
  }

  /** ADD_TO_CART raises the cart badge count by exactly one. */
  lemma AddToCartRaisesCount(s: AppState, p: Product)
    requires CartValid(s.cart)
    ensures CartItemCount(Reducer(s, AddToCart(p)).cart) == CartItemCount(s.cart) + 1
  {
    if InCart(s.cart, p.id) {
      IncrementQuantityCount(s.cart, p.id);
    } else {
      CartItemCountAppend(s.cart, CartItem(p, 1));
    }
  }

  /** Adding a product that is not in the cart twice leaves one line of quantity 2. */
  lemma AddToCartTwice(s: AppState, p: Product)
    requires !InCart(s.cart, p.id)
    ensures Reducer(Reducer(s, AddToCart(p)), AddToCart(p)).cart == s.cart + [CartItem(p, 2)]
  {
    var s1 := Reducer(s, AddToCart(p));
    assert s1.cart[|s.cart|].product.id == p.id;
    var c := Reducer(s1, AddToCart(p)).cart;
    forall i | 0 <= i < |s.cart| ensures c[i] == s.cart[i] {
      assert s.cart[i].product.id != p.id;
    }
  }

  /** REMOVE_FROM_CART: no line for the id is left, the others keep their
      order, and an absent id changes nothing. */
  lemma RemoveFromCartSpec(s: AppState, id: string)
    ensures var c := Reducer(s, RemoveFromCart(id)).cart;
      && !InCart(c, id)
      && (forall item :: item in c <==> item in s.cart && item.product.id != id)
      && IsSubseq(c, s.cart)
      && (!InCart(s.cart, id) ==> c == s.cart)
  {
    var c := Reducer(s, RemoveFromCart(id)).cart;
    forall k | 0 <= k < |c| ensures c[k].product.id != id {
      assert c[k] in c;
    }
    if !InCart(s.cart, id) {
      FilterAll(s.cart, (item: CartItem) => item.product.id != id);
    }
  }

  lemma {:induction false} UpdateNonPositiveIsRemove(s: AppState, id: string, q: int)
    requires q <= 0
    requires forall i :: 0 <= i < |s.cart| ==> s.cart[i].quantity >= 1
    ensures Reducer(s, UpdateCartQuantity(id, q)).cart == Reducer(s, RemoveFromCart(id)).cart
    decreases |s.cart|
  {
    if |s.cart| > 0 {
      var t := s.(cart := s.cart[1..]);
      UpdateNonPositiveIsRemove(t, id, q);
      assert SetQuantity(s.cart, id, q)[1..] == SetQuantity(t.cart, id, q);
    }
  }

  /** UPDATE_CART_QUANTITY on a valid cart: a quantity of zero or less removes
      the line exactly as REMOVE_FROM_CART does; a positive quantity is stored
      as is and every other line is kept in place. */
  lemma UpdateCartQuantitySpec(s: AppState, id: string, q: int)
    requires CartValid(s.cart)
    ensures var c := Reducer(s, UpdateCartQuantity(id, q)).cart;
      && (q <= 0 ==> c == Reducer(s, RemoveFromCart(id)).cart && !InCart(c, id))
      && (q > 0 ==>
            |c| == |s.cart| &&
            forall i :: 0 <= i < |c| ==>
              c[i] == if s.cart[i].product.id == id then s.cart[i].(quantity := q) else s.cart[i])
  {
    if q <= 0 {
      UpdateNonPositiveIsRemove(s, id, q);
      RemoveFromCartSpec(s, id);
    } else {
      var m := SetQuantity(s.cart, id, q);
      forall x | x in m ensures HasPositiveQuantity(x) {
        var k :| 0 <= k < |m| && m[k] == x;
      }
      FilterAll(m, HasPositiveQuantity);
    }
  }

  /** The cart invariant survives every action. */
  lemma CartActionsPreserveValid(s: AppState, a: Action)
    requires CartValid(s.cart)
    ensures CartValid(Reducer(s, a).cart)
  {
    match a
    case AddToCart(p) =>
      if !InCart(s.cart, p.id) {
        var c := s.cart + [CartItem(p, 1)];
        forall i, j | 0 <= i < j < |c| ensures c[i].product.id != c[j].product.id {
          if j == |s.cart| {
            assert c[i] == s.cart[i];
          }
        }
      }
    case RemoveFromCart(id) =>
      FilterKeepsCartValid(s.cart, (item: CartItem) => item.product.id != id);
    case UpdateCartQuantity(id, q) =>
      var m := SetQuantity(s.cart, id, q);
      assert UniqueIds(m) by {
        forall i, j | 0 <= i < j < |m| ensures m[i].product.id != m[j].product.id {
          assert m[i].product == s.cart[i].product && m[j].product == s.cart[j].product;
        }
      }
      FilterKeepsUniqueIds(m, HasPositiveQuantity);
      var c := Filter(m, HasPositiveQuantity);
      forall i | 0 <= i < |c| ensures c[i].quantity >= 1 {
        assert c[i] in c;
      }
    case _ =>
  }

  // ---------------------------------------------------------------------------
  // Wishlist properties

  /** ADD_TO_WISHLIST has set semantics: a present id changes nothing, so the
      action is idempotent; a new id is appended at the end. */
  lemma AddToWishlistSpec(s: AppState, id: string)
    ensures var a := AddToWishlist(id);
      var w := Reducer(s, a).wishlist;
      && (id in s.wishlist ==> Reducer(s, a) == s)
      && Reducer(Reducer(s, a), a) == Reducer(s, a)
      && (forall x :: x in w <==> x in s.wishlist || x == id)
      && s.wishlist <= w
      && (NoDups(s.wishlist) ==> NoDups(w))
  {
    var w := Reducer(s, AddToWishlist(id)).wishlist;
    assert id in w by {
      if id !in s.wishlist {
        assert w[|s.wishlist|] == id;
      }
    }
  }

  /** REMOVE_FROM_WISHLIST leaves the id absent and the rest in order. */
  lemma RemoveFromWishlistSpec(s: AppState, id: string)
    ensures var w := Reducer(s, RemoveFromWishlist(id)).wishlist;
      && (forall x :: x in w <==> x in s.wishlist && x != id)
      && IsSubseq(w, s.wishlist)
      && (id !in s.wishlist ==> w == s.wishlist)
      && (NoDups(s.wishlist) ==> NoDups(w))
  {
    if id !in s.wishlist {
      FilterAll(s.wishlist, x => x != id);
    }
    if NoDups(s.wishlist) {
      FilterNoDups(s.wishlist, x => x != id);
    }
  }

  /** A duplicate-free wishlist stays duplicate-free under every action. */
  lemma WishlistActionsPreserveNoDups(s: AppState, a: Action)
    requires NoDups(s.wishlist)
    ensures NoDups(Reducer(s, a).wishlist)
  {
    match a
    case AddToWishlist(id) => AddToWishlistSpec(s, id);
    case RemoveFromWishlist(id) => RemoveFromWishlistSpec(s, id);
    case _ =>
  }

  // ---------------------------------------------------------------------------
  // View history properties

  lemma {:induction false} WithoutLength(ids: seq<string>, id: string)
    ensures |Without(ids, id)| == |ids| - multiset(ids)[id]
  {
    if |ids| > 0 {
      assert ids == [ids[0]] + ids[1..];
      WithoutLength(ids[1..], id);
    }
  }

  lemma {:induction false} NoDupsCount(ids: seq<string>, x: string)
    requires NoDups(ids)
    ensures multiset(ids)[x] == if x in ids then 1 else 0
  {
    if |ids| > 0 {
      var tail := ids[1..];
      assert ids == [ids[0]] + tail;
      assert NoDups(tail) by {
        forall i, j | 0 <= i < j < |tail| ensures tail[i] != tail[j] {
          assert tail[i] == ids[i + 1] && tail[j] == ids[j + 1];
        }
      }
      NoDupsCount(tail, x);
      if x == ids[0] {
        forall k | 0 <= k < |tail| ensures tail[k] != x {
          assert tail[k] == ids[k + 1];
        }
      }
    }
  }

  /** ADD_TO_VIEW_HISTORY with a user: the id comes first and occurs once, the
      older entries follow in their order, the length is the capped size of
      the deduplicated history, and a duplicate-free history stays so. */
  lemma AddToViewHistorySpec(s: AppState, id: string)
    requires s.user.Some?
    ensures var old_h := s.user.value.viewHistory;
      var h := Reducer(s, AddToViewHistory(id)).user.value.viewHistory;
      && |h| == Min(HistoryCap, 1 + |old_h| - multiset(old_h)[id])
      && 1 <= |h| <= HistoryCap
      && h[0] == id
      && multiset(h)[id] == 1
      && id !in h[1..]
      && IsSubseq(h[1..], old_h)
      && h[1..] <= Without(old_h, id)
      && (NoDups(old_h) ==> NoDups(h))
      && (NoDups(old_h) ==> forall i, j :: 0 <= i < j < |old_h| && old_h[i] != id && old_h[j] != id && old_h[j] in h ==> old_h[i] in h)
  {
    var old_h := s.user.value.viewHistory;
    var rest := Without(old_h, id);
    WithoutLength(old_h, id);
    var full := [id] + rest;
    var h := full[..Min(HistoryCap, |full|)];
    assert h == Reducer(s, AddToViewHistory(id)).user.value.viewHistory;
    assert h[1..] == rest[..|h| - 1];
    SubseqPrefix(rest, old_h, |h| - 1);
    assert id !in rest;
    assert id !in h[1..];
    assert h == [id] + h[1..];
    assert multiset(h)[id] == 1;
    if NoDups(old_h) {
      FilterNoDups(old_h, x => x != id);
      forall i, j | 0 <= i < j < |h| ensures h[i] != h[j] {
        if i == 0 {
          assert h[j] == rest[j - 1];
        } else {
          assert h[i] == rest[i - 1] && h[j] == rest[j - 1];
        }
      }
      forall i, j | 0 <= i < j < |old_h| && old_h[i] != id && old_h[j] != id && old_h[j] in h
        ensures old_h[i] in h
      {
        assert old_h[j] in h[1..];
        FilterPrefixKeepsEarlier(old_h, x => x != id, |h| - 1, i, j);
      }
    }
  }

  /** Viewing an already viewed product again (duplicate-free history within
      the cap) moves it to the front and keeps the length. */
  lemma ViewAgainMovesToFront(s: AppState, id: string)
    requires s.user.Some? && id in s.user.value.viewHistory
    requires NoDups(s.user.value.viewHistory) && |s.user.value.viewHistory| <= HistoryCap
    ensures var h := Reducer(s, AddToViewHistory(id)).user.value.viewHistory;
      |h| == |s.user.value.viewHistory| && h[0] == id
  {
    NoDupsCount(s.user.value.viewHistory, id);
    AddToViewHistorySpec(s, id);
  }

  /** Viewing a new product when the history is full keeps the new id and
      the `HistoryCap - 1` most recent older entries. */
  lemma ViewNewWhenFull(s: AppState, id: string)
    requires s.user.Some? && id !in s.user.value.viewHistory
    requires |s.user.value.viewHistory| >= HistoryCap
    ensures var old_h := s.user.value.viewHistory;
      Reducer(s, AddToViewHistory(id)).user.value.viewHistory == [id] + old_h[..HistoryCap - 1]
  {
    var old_h := s.user.value.viewHistory;
    FilterAll(old_h, x => x != id);
    assert Without(old_h, id) == old_h;
    assert ([id] + old_h)[..HistoryCap] == [id] + old_h[..HistoryCap - 1];
  }
}
