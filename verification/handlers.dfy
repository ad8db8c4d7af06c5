/** The route handlers of `server.ts` that carry business rules of their
    own. Request parsing and response shapes are not modelled: a handler
    receives the already parsed ids and body fields (an absent body field is
    `None`) and returns a `Step`. */
module Handlers {
  import opened Basics
  import opened Domain
  import opened Repository
  import Service

  /** POST /usuarios/:idUsuario/carrinho: rejects a (title, user) pair already
      in the cart, otherwise appends the row. Neither the title's existence
      nor ownership is checked here. */
  function AddToCart(s: Store, user: Id, title: Id): (r: Step<CartEntry>)
    ensures r.result.Err? <==> CartEntry(title, user) in s.cart
    ensures r.result.Err? ==> r.result.error == AlreadyInCart && r.store == s
    ensures r.result.Ok? ==> r.result.value == CartEntry(title, user)
    ensures r.result.Ok? ==> r.store == s.(cart := s.cart + [CartEntry(title, user)])
    ensures NoDuplicates(s.cart) ==> NoDuplicates(r.store.cart)
  {
    if CartEntry(title, user) in s.cart then Step(s, Err(AlreadyInCart))
    else
      var e := CartEntry(title, user);
      Step(s.(cart := s.cart + [e]), Ok(e))
  }

  /** POST /usuarios/:idUsuario/wishlist: rejects a pair already wished for. */
  function AddToWishlist(s: Store, user: Id, title: Id): (r: Step<CartEntry>)
    ensures r.result.Err? <==> CartEntry(title, user) in s.wishlist
    ensures r.result.Err? ==> r.result.error == AlreadyInWishlist && r.store == s
    ensures r.result.Ok? ==> r.result.value == CartEntry(title, user)
    ensures r.result.Ok? ==> r.store == s.(wishlist := s.wishlist + {CartEntry(title, user)})
    ensures r.result.Ok? ==> |r.store.wishlist| == |s.wishlist| + 1
  {
    if CartEntry(title, user) in s.wishlist then Step(s, Err(AlreadyInWishlist))
    else
      var e := CartEntry(title, user);
      Step(s.(wishlist := s.wishlist + {e}), Ok(e))
  }

  /** `texto || null`: the empty string and an absent text both become null. */
  function TextOrNull(text: Option<string>): (r: Option<string>)
    ensures r.None? <==> text.None? || text.value == ""
    ensures r.Some? ==> r == text
  {
    if text.Some? && text.value != "" then text else None
  }

  /** POST /jogos/:idJogo/analises: a missing or out-of-range rating is
      rejected before the service runs; the text is passed as `texto || null`,
      so an empty text never clears a stored one. */
  function SubmitReview(s: Store, title: Id, user: Id, rating: Option<real>, text: Option<string>): (r: Step<Review>)
    ensures rating.None? || !ValidRating(rating.value) ==> r == Step(s, Err(InvalidRating))
    ensures rating.Some? ==> r == Service.PostReview(s, title, user, rating.value, TextOrNull(text))
    ensures r.result.Ok? && (text.None? || text.value == "") && (title, user) in s.reviews ==>
      r.result.value.text == s.reviews[(title, user)].text
  {
    if rating.None? || !ValidRating(rating.value) then Step(s, Err(InvalidRating))
    else Service.PostReview(s, title, user, rating.value, TextOrNull(text))
  }

  /** PUT /jogos/:idJogo/analises/:idUsuario: the review must exist; a supplied
      rating outside [0, 10] is rejected before anything is written; only the
      supplied fields change, and a supplied empty text does replace the
      stored one. */
  function EditReview(s: Store, title: Id, user: Id, rating: Option<real>, text: Option<string>): (r: Step<Review>)
    ensures r.result.Err? ==> r.store == s
    ensures (title, user) !in s.reviews ==> r.result == Err(ReviewNotFound)
    ensures (title, user) in s.reviews && rating.Some? && !ValidRating(rating.value) ==>
      r.result == Err(InvalidRating)
    ensures r.result.Ok? <==> (title, user) in s.reviews && (rating.None? || ValidRating(rating.value))
    ensures r.result.Ok? ==> r.store == s.(reviews := s.reviews[(title, user) := r.result.value])
    ensures r.result.Ok? ==>
      r.result.value.rating == (if rating.Some? then rating.value else s.reviews[(title, user)].rating)
    ensures r.result.Ok? ==>
      r.result.value.text == (if text.Some? then text else s.reviews[(title, user)].text)
  {
    if (title, user) !in s.reviews then Step(s, Err(ReviewNotFound))
    else if rating.Some? && !ValidRating(rating.value) then Step(s, Err(InvalidRating))
    else
      var old_ := s.reviews[(title, user)];
      var rated := if rating.Some? then UpdateRating(old_, rating.value) else old_;
      var review := if text.Some? then UpdateText(rated, text.value) else rated;
      Step(s.(reviews := s.reviews[(title, user) := review]), Ok(review))
  }

  /** PUT /usuarios/:idUsuario/biblioteca/:idJogo: the library row must exist;
      a supplied negative played time is rejected, any other value replaces
      the stored one, even a smaller one. */
  function SetPlaytime(s: Store, user: Id, title: Id, playtime: Option<real>): (r: Step<LibraryEntry>)
    ensures r.result.Err? ==> r.store == s
    ensures (title, user) !in s.library ==> r.result == Err(LibraryEntryNotFound)
    ensures (title, user) in s.library && playtime.Some? && playtime.value < 0.0 ==>
      r.result == Err(NegativePlaytime)
    ensures r.result.Ok? <==> (title, user) in s.library && (playtime.None? || playtime.value >= 0.0)
    ensures r.result.Ok? ==> r.store == s.(library := s.library[(title, user) := r.result.value])
    ensures r.result.Ok? ==>
      r.result.value.playtime == (if playtime.Some? then playtime.value else s.library[(title, user)].playtime)
  {
    if (title, user) !in s.library then Step(s, Err(LibraryEntryNotFound))
    else if playtime.Some? && playtime.value < 0.0 then Step(s, Err(NegativePlaytime))
    else
      var entry := if playtime.Some? then LibraryEntry(playtime.value) else s.library[(title, user)];
      Step(s.(library := s.library[(title, user) := entry]), Ok(entry))
  }

  /** PATCH …/amizades/:idAmigo/aceitar: looks the row up in either
      orientation and marks it accepted, whichever of the two users calls and
      whatever its previous status; the write goes to the row under its
      stored orientation and no other row changes. */
  function AcceptFriendship(s: Store, user: Id, friend: Id): (r: Step<Friendship>)
    ensures r.result.Err? <==> (user, friend) !in s.friendships && (friend, user) !in s.friendships
    ensures r.result.Err? ==> r.result.error == FriendshipNotFound && r.store == s
    ensures r.result.Ok? ==>
      var f := r.result.value;
      && f.status == Accepted
      && ((f.initiator == user && f.target == friend) || (f.initiator == friend && f.target == user))
      && (f.initiator, f.target) in s.friendships
      && r.store == s.(friendships := s.friendships[(f.initiator, f.target) := Accepted])
  {
    match FindBetween(s.friendships, user, friend)
    case None => Step(s, Err(FriendshipNotFound))
    case Some(found) =>
      var f := Accept(found);
      match UpdateFriendship(s.friendships, f)
      case Ok(fs) => Step(s.(friendships := fs), Ok(f))
      case Err(e) => Step(s, Err(e))
  }

  /** PATCH …/amizades/:idAmigo/rejeitar: the same lookup and write as
      accepting, with the status 'rejeitada'. */
  function RejectFriendship(s: Store, user: Id, friend: Id): (r: Step<Friendship>)
    ensures r.result.Err? <==> (user, friend) !in s.friendships && (friend, user) !in s.friendships
    ensures r.result.Err? ==> r.result.error == FriendshipNotFound && r.store == s
    ensures r.result.Ok? ==>
      var f := r.result.value;
      && f.status == Rejected
      && ((f.initiator == user && f.target == friend) || (f.initiator == friend && f.target == user))
      && (f.initiator, f.target) in s.friendships
      && r.store == s.(friendships := s.friendships[(f.initiator, f.target) := Rejected])
  {
    match FindBetween(s.friendships, user, friend)
    case None => Step(s, Err(FriendshipNotFound))
    case Some(found) =>
      var f := Reject(found);
      match UpdateFriendship(s.friendships, f)
      case Ok(fs) => Step(s.(friendships := fs), Ok(f))
      case Err(e) => Step(s, Err(e))
  }

  /** DELETE …/amizades/:idAmigo: deletes only the row stored as
      (user, friend); unlike the lookup it does not try the other
      orientation. */
  function RemoveFriendship(s: Store, user: Id, friend: Id): (r: Step<()>)
    ensures r.result.Err? <==> (user, friend) !in s.friendships
    ensures r.result.Err? ==> r.result.error == RecordNotFound && r.store == s
    ensures r.result.Ok? ==> r.store.friendships.Keys == s.friendships.Keys - {(user, friend)}
    ensures r.result.Ok? ==> forall k :: k in r.store.friendships ==> r.store.friendships[k] == s.friendships[k]
    ensures r.result.Ok? ==> r.store == s.(friendships := r.store.friendships)
  {
    match DeleteFriendship(s.friendships, user, friend)
    case Ok(fs) => Step(s.(friendships := fs), Ok(()))
    case Err(e) => Step(s, Err(e))
  }
}
