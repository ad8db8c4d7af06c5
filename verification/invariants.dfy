/** The consistency the business rules keep across the store, and the
    properties that relate several operations: every modelled operation
    preserves `Valid`, so any sequence of them does; the checkout charges
    exactly the sum of the prices; friendships stay one row per unordered
    pair; and the multi-call scenarios hold for all inputs. */
module Invariants {
  import opened Basics
  import opened Domain
  import opened Repository
  import opened Service
  import opened Handlers

  /** What the data model requires of a store. */
  predicate Valid(s: Store) {
    && (forall u :: u in s.users ==> s.users[u].balance >= 0.0)
    && (forall t :: t in s.titles ==> s.titles[t].price >= 0.0)
    && NoDuplicates(s.cart)
    && (forall k :: k in s.library ==> s.library[k].playtime >= 0.0)
    && (forall id :: id in s.transactions ==> id < s.nextTransactionId)
    && (forall id :: id in s.transactions ==> s.transactions[id].user in s.users)
    && (forall id :: id in s.transactions ==> s.transactions[id].total >= 0.0)
    && (forall li :: li in s.lineItems ==> li.transaction in s.transactions)
    && (forall k :: k in s.reviews ==> ValidRating(s.reviews[k].rating))
    && (forall k :: k in s.reviews ==> k in s.library)
    && FriendshipsWellFormed(s.friendships)
  }

  // ------------------------------------------------------------ checkout

  /** With non-negative prices the checkout total is non-negative. */
  lemma {:induction false} PriceSumNonNegative(titles: map<Id, Title>, items: seq<Id>)
    requires forall i :: 0 <= i < |items| ==> items[i] in titles
    requires forall t :: t in titles ==> titles[t].price >= 0.0
    ensures PriceSum(titles, items) >= 0.0
  {
    if |items| > 0 {
      PriceSumNonNegative(titles, items[1..]);
    }
  }

  /** Deleting a user's cart rows keeps the cart free of duplicates. */
  lemma {:induction false} DeleteAllKeepsNoDuplicates(cart: seq<CartEntry>, user: Id)
    requires NoDuplicates(cart)
    ensures NoDuplicates(DeleteAllByUser(cart, user))
  {
    if |cart| > 0 {
      assert NoDuplicates(cart[1..]) by {
        forall i, j | 0 <= i < j < |cart[1..]|
          ensures cart[1..][i] != cart[1..][j]
        {
          assert cart[1..][i] == cart[i + 1] && cart[1..][j] == cart[j + 1];
        }
      }
      DeleteAllKeepsNoDuplicates(cart[1..], user);
      var rest := DeleteAllByUser(cart[1..], user);
      if cart[0].user != user {
        assert cart[0] !in cart[1..] by {
          forall j | 0 <= j < |cart[1..]| ensures cart[1..][j] != cart[0] {
            assert cart[1..][j] == cart[j + 1];
          }
        }
        assert cart[0] !in rest;
        var r := [cart[0]] + rest;
        forall i, j | 0 <= i < j < |r| ensures r[i] != r[j] {
          if i == 0 {
            assert r[j] == rest[j - 1];
          } else {
            assert r[i] == rest[i - 1] && r[j] == rest[j - 1];
          }
        }
      }
    }
  }

  /** With non-negative prices, a checkout whose checks all pass succeeds
      (a balance equal to the total included) and lowers the balance by
      exactly the total charged, a total of 0 included. */
  lemma CheckoutDebitsExactly(s: Store, user: Id)
    requires forall t :: t in s.titles ==> s.titles[t].price >= 0.0
    requires user in s.users && CartOf(s.cart, user) != []
    requires forall i :: 0 <= i < |CartOf(s.cart, user)| ==>
      CartOf(s.cart, user)[i] in s.titles && (CartOf(s.cart, user)[i], user) !in s.library
    requires PriceSum(s.titles, CartOf(s.cart, user)) <= s.users[user].balance
    ensures Checkout(s, user).result.Ok?
    ensures Checkout(s, user).result.value.total >= 0.0
    ensures Checkout(s, user).store.users[user].balance ==
            s.users[user].balance - Checkout(s, user).result.value.total
  {
    var items := CartOf(s.cart, user);
    PriceSumNonNegative(s.titles, items);
  }

  /** All or nothing: one cart title that is gone or already owned fails the
      whole checkout, whatever the other titles are, and nothing is bought. */
  lemma CheckoutAllOrNothing(s: Store, user: Id, title: Id)
    requires user in s.users
    requires title in CartOf(s.cart, user)
    requires title !in s.titles || (title, user) in s.library
    ensures Checkout(s, user).store == s
    ensures Checkout(s, user).result.Err?
    ensures Checkout(s, user).result.error.TitleNotFound? || Checkout(s, user).result.error.AlreadyOwned?
  {
  }

  /** A title bought once cannot be bought again: put back in the emptied
      cart, the next checkout fails with AlreadyOwned and changes nothing. */
  lemma NoRepurchase(s: Store, user: Id, title: Id)
    requires Checkout(s, user).result.Ok?
    requires title in CartOf(s.cart, user)
    ensures
      var s1 := Checkout(s, user).store;
      var s2 := AddToCart(s1, user, title).store;
      && AddToCart(s1, user, title).result.Ok?
      && Checkout(s2, user).result == Err(AlreadyOwned(title))
      && Checkout(s2, user).store == s2
  {
    var s1 := Checkout(s, user).store;
    assert CartEntry(title, user) !in s1.cart;
    var s2 := AddToCart(s1, user, title).store;
    CartOfAppendSelf(s1.cart, user, title);
    assert CartOf(s2.cart, user) == [title];
    assert FirstBadItem(s2, user, [title]) == 0;
  }

  /** Appending a row of `user` to a cart in which `user` has no rows leaves
      exactly that title in `user`'s cart. */
  lemma {:induction false} CartOfAppendSelf(cart: seq<CartEntry>, user: Id, title: Id)
    requires CartOf(cart, user) == []
    ensures CartOf(cart + [CartEntry(title, user)], user) == [title]
  {
    if |cart| == 0 {
      assert cart + [CartEntry(title, user)] == [CartEntry(title, user)];
    } else {
      assert (cart + [CartEntry(title, user)])[1..] == cart[1..] + [CartEntry(title, user)];
      CartOfAppendSelf(cart[1..], user, title);
    }
  }

  /** The writes of a checkout keep the store valid when the checks passed. */
  lemma PurchasePreservesValid(s: Store, user: Id, items: seq<Id>)
    requires Valid(s)
    requires user in s.users
    requires forall i :: 0 <= i < |items| ==> items[i] in s.titles && (items[i], user) !in s.library
    requires PriceSum(s.titles, items) <= s.users[user].balance
    ensures Valid(Purchase(s, user, items, PriceSum(s.titles, items)))
  {
    var total := PriceSum(s.titles, items);
    var s' := Purchase(s, user, items, total);
    var id := s.nextTransactionId;
    PriceSumNonNegative(s.titles, items);
    DeleteAllKeepsNoDuplicates(s.cart, user);
    forall k | k in s'.library ensures s'.library[k].playtime >= 0.0 {
      if k !in s.library {
        var t :| t in items && k == (t, user);
      }
    }
  }

  lemma CheckoutPreservesValid(s: Store, user: Id)
    requires Valid(s)
    ensures Valid(Checkout(s, user).store)
  {
    var items := CartOf(s.cart, user);
    if Checkout(s, user).result.Ok? {
      PurchasePreservesValid(s, user, items);
    }
  }

  // -------------------------------------------------------------- review

  lemma PostReviewPreservesValid(s: Store, title: Id, user: Id, rating: real, text: Option<string>)
    requires Valid(s)
    ensures Valid(PostReview(s, title, user, rating, text).store)
  {
  }

  /** The review scenario: a review with text, then a second submission
      without text, leaves the second rating and the first text. */
  lemma ReviewKeepsTextWhenOmitted(s: Store, title: Id, user: Id, first: real, second: real, text: string)
    requires (title, user) in s.library
    requires ValidRating(first) && ValidRating(second)
    ensures
      var s1 := PostReview(s, title, user, first, Some(text)).store;
      var r := PostReview(s1, title, user, second, None).result;
      r == Ok(Review(second, Some(text))) &&
      PostReview(s1, title, user, second, None).store.reviews[(title, user)] == Review(second, Some(text))
  {
  }

  /** Through the POST route an empty text behaves as an absent one and keeps
      the stored text; through the PUT route it replaces it. */
  lemma EmptyTextRoutesDiffer(s: Store, title: Id, user: Id, rating: real, stored: Option<string>)
    requires (title, user) in s.library && (title, user) in s.reviews
    requires s.reviews[(title, user)].text == stored
    requires ValidRating(rating)
    ensures SubmitReview(s, title, user, Some(rating), Some("")).result.value.text == stored
    ensures EditReview(s, title, user, None, Some("")).result.value.text == Some("")
  {
  }

  lemma EditReviewPreservesValid(s: Store, title: Id, user: Id, rating: Option<real>, text: Option<string>)
    requires Valid(s)
    ensures Valid(EditReview(s, title, user, rating, text).store)
  {
  }

  // ------------------------------------------------------------- library

  lemma SetPlaytimePreservesValid(s: Store, user: Id, title: Id, playtime: Option<real>)
    requires Valid(s)
    ensures Valid(SetPlaytime(s, user, title, playtime).store)
  {
  }

  /** The library route does not keep played time monotonic: a smaller
      non-negative value replaces a larger one. */
  lemma SetPlaytimeMayDecrease(s: Store, user: Id, title: Id)
    requires (title, user) in s.library && s.library[(title, user)].playtime > 0.0
    ensures SetPlaytime(s, user, title, Some(0.0)).result.Ok?
    ensures SetPlaytime(s, user, title, Some(0.0)).store.library[(title, user)].playtime
            < s.library[(title, user)].playtime
  {
  }

  // ------------------------------------------------------------- carts

  lemma AddToCartPreservesValid(s: Store, user: Id, title: Id)
    requires Valid(s)
    ensures Valid(AddToCart(s, user, title).store)
  {
  }

  /** Adding to the cart checks neither that the title exists nor that the
      user owns it already. */
  lemma AddToCartUnchecked(s: Store, user: Id, title: Id)
    requires CartEntry(title, user) !in s.cart
    ensures AddToCart(s, user, title).result.Ok?
  {
  }

  // ---------------------------------------------------------- friendship

  lemma AddFriendPreservesValid(s: Store, user: Id, friend: Id)
    requires Valid(s)
    ensures Valid(AddFriend(s, user, friend).store)
  {
  }

  /** A friendship request in one direction blocks the request in the other
      direction. */
  lemma NoReverseRequest(s: Store, a: Id, b: Id)
    requires AddFriend(s, a, b).result.Ok?
    ensures AddFriend(AddFriend(s, a, b).store, b, a).result == Err(DuplicateFriendship)
  {
  }

  /** Once accepted (by either side), the friendship is listed for both users,
      and each resolves the other as the other party. */
  lemma AcceptedListedForBoth(s: Store, a: Id, b: Id, caller: Id)
    requires FriendshipsWellFormed(s.friendships)
    requires AddFriend(s, a, b).result.Ok?
    requires caller == a || caller == b
    ensures
      var s1 := AddFriend(s, a, b).store;
      var s2 := AcceptFriendship(s1, caller, if caller == a then b else a).store;
      var f := Friendship(a, b, Accepted);
      && f in FindAccepted(s2.friendships, a) && OtherParty(f, a) == b
      && f in FindAccepted(s2.friendships, b) && OtherParty(f, b) == a
  {
    var s1 := AddFriend(s, a, b).store;
    assert (b, a) !in s1.friendships;
  }

  lemma AcceptPreservesValid(s: Store, user: Id, friend: Id)
    requires Valid(s)
    ensures Valid(AcceptFriendship(s, user, friend).store)
  {
  }

  lemma RejectPreservesValid(s: Store, user: Id, friend: Id)
    requires Valid(s)
    ensures Valid(RejectFriendship(s, user, friend).store)
  {
  }

  lemma RemovePreservesValid(s: Store, user: Id, friend: Id)
    requires Valid(s)
    ensures Valid(RemoveFriendship(s, user, friend).store)
  {
  }

  /** Deleting with the two ids swapped does not remove a row stored in the
      other orientation, although the lookup finds it both ways. */
  lemma RemoveIsOriented(s: Store, a: Id, b: Id)
    requires FriendshipsWellFormed(s.friendships)
    requires (a, b) in s.friendships
    ensures FindBetween(s.friendships, b, a).Some?
    ensures RemoveFriendship(s, b, a).result == Err(RecordNotFound)
    ensures (a, b) in RemoveFriendship(s, b, a).store.friendships
  {
  }

  // ------------------------------------------------------------- traces

  /** One call of any modelled operation. */
  datatype Op =
    | CheckoutOp(user: Id)
    | PostReviewOp(title: Id, user: Id, rating: real, text: Option<string>)
    | AddFriendOp(user: Id, friend: Id)
    | AddToCartOp(user: Id, title: Id)
    | AddToWishlistOp(user: Id, title: Id)
    | SubmitReviewOp(title: Id, user: Id, givenRating: Option<real>, text: Option<string>)
    | EditReviewOp(title: Id, user: Id, givenRating: Option<real>, text: Option<string>)
    | SetPlaytimeOp(user: Id, title: Id, playtime: Option<real>)
    | AcceptOp(user: Id, friend: Id)
    | RejectOp(user: Id, friend: Id)
    | RemoveFriendOp(user: Id, friend: Id)

  function Apply(s: Store, op: Op): Store {
    match op
    case CheckoutOp(u) => Checkout(s, u).store
    case PostReviewOp(t, u, n, x) => PostReview(s, t, u, n, x).store
    case AddFriendOp(u, f) => AddFriend(s, u, f).store
    case AddToCartOp(u, t) => AddToCart(s, u, t).store
    case AddToWishlistOp(u, t) => AddToWishlist(s, u, t).store
    case SubmitReviewOp(t, u, n, x) => SubmitReview(s, t, u, n, x).store
    case EditReviewOp(t, u, n, x) => EditReview(s, t, u, n, x).store
    case SetPlaytimeOp(u, t, p) => SetPlaytime(s, u, t, p).store
    case AcceptOp(u, f) => AcceptFriendship(s, u, f).store
    case RejectOp(u, f) => RejectFriendship(s, u, f).store
    case RemoveFriendOp(u, f) => RemoveFriendship(s, u, f).store
  }

  function Run(s: Store, ops: seq<Op>): Store
    decreases |ops|
  {
    if |ops| == 0 then s else Run(Apply(s, ops[0]), ops[1..])
  }

  lemma ApplyPreservesValid(s: Store, op: Op)
    requires Valid(s)
    ensures Valid(Apply(s, op))
  {
    match op
    case CheckoutOp(u) => CheckoutPreservesValid(s, u);
    case PostReviewOp(t, u, n, x) => PostReviewPreservesValid(s, t, u, n, x);
    case AddFriendOp(u, f) => AddFriendPreservesValid(s, u, f);
    case AddToCartOp(u, t) => AddToCartPreservesValid(s, u, t);
    case AddToWishlistOp(u, t) =>
    case SubmitReviewOp(t, u, n, x) =>
      if n.Some? { PostReviewPreservesValid(s, t, u, n.value, TextOrNull(x)); }
    case EditReviewOp(t, u, n, x) => EditReviewPreservesValid(s, t, u, n, x);
    case SetPlaytimeOp(u, t, p) => SetPlaytimePreservesValid(s, u, t, p);
    case AcceptOp(u, f) => AcceptPreservesValid(s, u, f);
    case RejectOp(u, f) => RejectPreservesValid(s, u, f);
    case RemoveFriendOp(u, f) => RemovePreservesValid(s, u, f);
  }

  /** Any sequence of the modelled operations keeps a valid store valid; in
      particular no user is ever befriended twice or by themselves, and
      every review stays backed by a library row. */
  lemma {:induction false} RunPreservesValid(s: Store, ops: seq<Op>)
    requires Valid(s)
    ensures Valid(Run(s, ops))
    decreases |ops|
  {
    if |ops| > 0 {
      ApplyPreservesValid(s, ops[0]);
      RunPreservesValid(Apply(s, ops[0]), ops[1..]);
    }
  }
}
