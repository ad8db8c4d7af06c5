/** `GameHubService` (`repository.ts`): the three business operations that
    check a list of conditions and then write to several tables. Each is a
    transition from a store to a `Step`: on a failure no write happens and
    the store is returned unchanged. */
module Service {
  import opened Basics
  import opened Domain
  import opened Repository

  // ------------------------------------------------------------ checkout

  /** A cart title passes the per-item checks of the checkout: it still
      exists, and `user` does not already own it. */
  predicate ItemOk(s: Store, user: Id, title: Id) {
    title in s.titles && (title, user) !in s.library
  }

  /** The failure the checkout reports for a title that does not pass:
      existence is checked before ownership. */
  function ItemError(s: Store, user: Id, title: Id): Error {
    if title !in s.titles then TitleNotFound(title) else AlreadyOwned(title)
  }

  /** The sum of the current prices of `items` (`valorTotal`). */
  function PriceSum(titles: map<Id, Title>, items: seq<Id>): real
    requires forall i :: 0 <= i < |items| ==> items[i] in titles
  {
    if |items| == 0 then 0.0 else titles[items[0]].price + PriceSum(titles, items[1..])
  }

  /** The position of the first cart title that fails the per-item checks,
      or `|items|` when all pass. */
  function FirstBadItem(s: Store, user: Id, items: seq<Id>): (i: nat)
    ensures i <= |items|
    ensures forall j :: 0 <= j < i ==> ItemOk(s, user, items[j])
    ensures i < |items| ==> !ItemOk(s, user, items[i])
  {
    if |items| == 0 then 0
    else if !ItemOk(s, user, items[0]) then 0
    else 1 + FirstBadItem(s, user, items[1..])
  }

  /** The library rows a checkout creates: each bought title, played time 0. */
  function GrantTitles(library: map<(Id, Id), LibraryEntry>, items: seq<Id>, user: Id): (r: map<(Id, Id), LibraryEntry>)
    ensures r.Keys == library.Keys + (set t | t in items :: (t, user))
    ensures forall t :: t in items ==> r[(t, user)] == LibraryEntry(0.0)
    ensures forall k :: k in library && k.1 == user && k.0 !in items ==> r[k] == library[k]
    ensures forall k :: k in library && k.1 != user ==> r[k] == library[k]
  {
    library + map t | t in items :: (t, user) := LibraryEntry(0.0)
  }

  /** `GameHubService.checkoutCart`. Checks, in order: the cart is not empty,
      the user exists, every cart title exists and is not owned yet (in cart
      order, existence before ownership), and the balance covers the sum of
      the current prices. Then it records one transaction with that total,
      one line item and one library row per title, debits the user and
      empties the user's cart. */
  function Checkout(s: Store, user: Id): (r: Step<Transaction>)
    ensures CartOf(s.cart, user) == [] ==> r.result == Err(EmptyCart)
    ensures CartOf(s.cart, user) != [] && user !in s.users ==> r.result == Err(UserNotFound)
    ensures CartOf(s.cart, user) != [] && user in s.users && FirstBadItem(s, user, CartOf(s.cart, user)) < |CartOf(s.cart, user)| ==>
      r.result == Err(ItemError(s, user, CartOf(s.cart, user)[FirstBadItem(s, user, CartOf(s.cart, user))]))
    ensures r.result.Err? ==> r.store == s
    ensures r.result.Ok? <==>
      && CartOf(s.cart, user) != []
      && user in s.users
      && (forall t :: t in CartOf(s.cart, user) ==> ItemOk(s, user, t))
      && PriceSum(s.titles, CartOf(s.cart, user)) <= s.users[user].balance
    ensures CartOf(s.cart, user) != [] && user in s.users &&
            (forall t :: t in CartOf(s.cart, user) ==> ItemOk(s, user, t)) &&
            s.users[user].balance < PriceSum(s.titles, CartOf(s.cart, user)) ==>
      r.result == Err(InsufficientBalance)
    ensures r.result.Ok? ==>
      var items := CartOf(s.cart, user);
      var total := PriceSum(s.titles, items);
      var id := s.nextTransactionId;
      && r.result.value == Transaction(user, total)
      && r.store.transactions == s.transactions[id := r.result.value]
      && r.store.nextTransactionId == id + 1
      && r.store.lineItems == s.lineItems + (set t | t in items :: LineItem(t, id))
      && r.store.library.Keys == s.library.Keys + (set t | t in items :: (t, user))
      && (forall t :: t in items ==> r.store.library[(t, user)].playtime == 0.0)
      && (forall k :: k in s.library ==> r.store.library[k] == s.library[k])
      && r.store.users.Keys == s.users.Keys
      && (total >= 0.0 ==> r.store.users[user].balance == s.users[user].balance - total)
      && r.store.users[user].(balance := s.users[user].balance) == s.users[user]
      && (total < 0.0 ==> r.store.users[user] == s.users[user])
      && (forall u :: u in s.users && u != user ==> r.store.users[u] == s.users[u])
      && CartOf(r.store.cart, user) == []
      && (forall u :: u != user ==> CartOf(r.store.cart, u) == CartOf(s.cart, u))
      && r.store.titles == s.titles
      && r.store.wishlist == s.wishlist
      && r.store.reviews == s.reviews
      && r.store.friendships == s.friendships
  {
    var items := CartOf(s.cart, user);
    if |items| == 0 then Step(s, Err(EmptyCart))
    else if user !in s.users then Step(s, Err(UserNotFound))
    else
      var bad := FirstBadItem(s, user, items);
      if bad < |items| then Step(s, Err(ItemError(s, user, items[bad])))
      else
        var total := PriceSum(s.titles, items);
        if s.users[user].balance < total then Step(s, Err(InsufficientBalance))
        else Step(Purchase(s, user, items, total), Ok(Transaction(user, total)))
  }

  /** The writes of a checkout that passed its checks: the transaction under
      the next id, its line items, the library rows, the debit (whose result
      is ignored, as in the source) and the emptied cart. */
  function Purchase(s: Store, user: Id, items: seq<Id>, total: real): (s': Store)
    requires user in s.users
  {
    var id := s.nextTransactionId;
    s.(
      transactions := s.transactions[id := Transaction(user, total)],
      nextTransactionId := id + 1,
      lineItems := s.lineItems + (set t | t in items :: LineItem(t, id)),
      library := GrantTitles(s.library, items, user),
      users := s.users[user := DebitBalance(s.users[user], total).0],
      cart := DeleteAllByUser(s.cart, user))
  }

  // -------------------------------------------------------------- review

  /** `GameHubService.postReview`. The rating must lie in [0, 10], checked
      first; then the user must own the title. An existing review gets the
      new rating, and the new text only when one is given; otherwise a new
      review with the given rating and text is created. */
  function PostReview(s: Store, title: Id, user: Id, rating: real, text: Option<string>): (r: Step<Review>)
    ensures !ValidRating(rating) ==> r.result == Err(InvalidRating)
    ensures ValidRating(rating) && (title, user) !in s.library ==> r.result == Err(NotOwned)
    ensures r.result.Err? ==> r.store == s
    ensures r.result.Ok? <==> ValidRating(rating) && (title, user) in s.library
    ensures r.result.Ok? ==> r.store == s.(reviews := s.reviews[(title, user) := r.result.value])
    ensures r.result.Ok? ==> r.result.value.rating == rating
    ensures r.result.Ok? && text.Some? ==> r.result.value.text == text
    ensures r.result.Ok? && text.None? && (title, user) in s.reviews ==>
      r.result.value.text == s.reviews[(title, user)].text
    ensures r.result.Ok? && text.None? && (title, user) !in s.reviews ==> r.result.value.text.None?
  {
    if !ValidRating(rating) then Step(s, Err(InvalidRating))
    else if (title, user) !in s.library then Step(s, Err(NotOwned))
    else
      var review :=
        if (title, user) in s.reviews then
          var rated := UpdateRating(s.reviews[(title, user)], rating);
          if text.Some? then UpdateText(rated, text.value) else rated
        else
          NewReview(rating, text);
      Step(s.(reviews := s.reviews[(title, user) := review]), Ok(review))
  }

  // ---------------------------------------------------------- friendship

  /** `GameHubService.addFriend`. Checks, in order: not oneself, no row
      between the two users in either orientation, both users exist. Then
      it stores the pending row (user, friend). */
  function AddFriend(s: Store, user: Id, friend: Id): (r: Step<Friendship>)
    ensures user == friend ==> r.result == Err(SelfFriendship)
    ensures user != friend && FindBetween(s.friendships, user, friend).Some? ==>
      r.result == Err(DuplicateFriendship)
    ensures user != friend && FindBetween(s.friendships, user, friend).None? &&
            (user !in s.users || friend !in s.users) ==>
      r.result == Err(UserNotFound)
    ensures r.result.Err? ==> r.store == s
    ensures r.result.Ok? <==>
      user != friend && (user, friend) !in s.friendships && (friend, user) !in s.friendships &&
      user in s.users && friend in s.users
    ensures r.result.Ok? ==> r.result.value == Friendship(user, friend, Pending)
    ensures r.result.Ok? ==> r.store == s.(friendships := s.friendships[(user, friend) := Pending])
    ensures FriendshipsWellFormed(s.friendships) ==> FriendshipsWellFormed(r.store.friendships)
  {
    if user == friend then Step(s, Err(SelfFriendship))
    else if FindBetween(s.friendships, user, friend).Some? then Step(s, Err(DuplicateFriendship))
    else if user !in s.users || friend !in s.users then Step(s, Err(UserNotFound))
    else
      var f := Friendship(user, friend, Pending);
      Step(s.(friendships := s.friendships[(user, friend) := f.status]), Ok(f))
  }
}
