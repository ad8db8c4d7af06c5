/** The persistent state of GameHub and the lookup/update semantics of the
    repositories the business rules rely on (`repository.ts`). The database
    becomes one immutable value: maps keyed by the tables' primary keys and
    sets for the pure join tables. */
module Repository {
  import opened Basics
  import opened Domain

  /** The whole store. Composite keys are written (title, user) for library
      and reviews, and (initiator, target) for friendships, as in the
      tables' primary keys. The cart keeps the order in which the database
      returns a user's rows, which decides which failing item a checkout
      reports first. */
  datatype Store = Store(
    users: map<Id, User>,
    titles: map<Id, Title>,
    cart: seq<CartEntry>,
    wishlist: set<CartEntry>,
    library: map<(Id, Id), LibraryEntry>,
    transactions: map<Id, Transaction>,
    nextTransactionId: Id,
    lineItems: set<LineItem>,
    reviews: map<(Id, Id), Review>,
    friendships: map<(Id, Id), Status>
  )

  /** The outcome of one operation: the store after it and either the record
      it returns or the failure it reports. */
  datatype Step<T> = Step(store: Store, result: Result<T>)

  // ------------------------------------------------------------- Carrinho

  /** `CarrinhoRepository.findByUsuarioId`: the titles of `user`'s cart rows,
      in row order. */
  function CartOf(cart: seq<CartEntry>, user: Id): (titles: seq<Id>)
    ensures forall t :: t in titles <==> CartEntry(t, user) in cart
    ensures NoDuplicates(cart) ==> forall i, j :: 0 <= i < j < |titles| ==> titles[i] != titles[j]
    ensures |titles| <= |cart|
  {
    if |cart| == 0 then []
    else
      assert NoDuplicates(cart) ==> NoDuplicates(cart[1..]) && cart[0] !in cart[1..] by {
        if NoDuplicates(cart) {
          forall i, j | 0 <= i < j < |cart[1..]| ensures cart[1..][i] != cart[1..][j] {
            assert cart[1..][i] == cart[i + 1] && cart[1..][j] == cart[j + 1];
          }
          forall j | 0 <= j < |cart[1..]| ensures cart[1..][j] != cart[0] {
            assert cart[1..][j] == cart[j + 1];
          }
        }
      }
      if cart[0].user == user then [cart[0].title] + CartOf(cart[1..], user)
      else CartOf(cart[1..], user)
  }

  /** `CarrinhoRepository.deleteAllByUsuario`: removes every row of `user`
      and keeps the other rows in order. */
  function DeleteAllByUser(cart: seq<CartEntry>, user: Id): (r: seq<CartEntry>)
    ensures forall e :: e in r <==> e in cart && e.user != user
    ensures CartOf(r, user) == []
    ensures forall other :: other != user ==> CartOf(r, other) == CartOf(cart, other)
  {
    if |cart| == 0 then []
    else if cart[0].user == user then DeleteAllByUser(cart[1..], user)
    else [cart[0]] + DeleteAllByUser(cart[1..], user)
  }

  /** The cart as a set: no (title, user) row twice, as the table's composite
      primary key enforces. */
  predicate NoDuplicates(cart: seq<CartEntry>) {
    forall i, j :: 0 <= i < j < |cart| ==> cart[i] != cart[j]
  }

  // ------------------------------------------------------------- Amizades

  /** `AmizadesRepository.findByUsuarioAndAmigo`: the row between `a` and `b`
      in either orientation. The source asks for the first match of an OR;
      when both orientations are stored (which `AddFriend` never allows) this
      model returns the (a, b) row. */
  function FindBetween(fs: map<(Id, Id), Status>, a: Id, b: Id): (r: Option<Friendship>)
    ensures r.None? <==> (a, b) !in fs && (b, a) !in fs
    ensures r.Some? ==> (r.value.initiator, r.value.target) in fs
    ensures r.Some? ==> fs[(r.value.initiator, r.value.target)] == r.value.status
    ensures r.Some? ==> ((r.value.initiator == a && r.value.target == b) ||
                         (r.value.initiator == b && r.value.target == a))
  {
    if (a, b) in fs then Some(Friendship(a, b, fs[(a, b)]))
    else if (b, a) in fs then Some(Friendship(b, a, fs[(b, a)]))
    else None
  }

  /** `AmizadesRepository.findAceitasByUsuarioId`: every accepted row in which
      `user` is initiator or target. */
  function FindAccepted(fs: map<(Id, Id), Status>, user: Id): (r: set<Friendship>)
    ensures forall f :: f in r <==>
      && (f.initiator, f.target) in fs
      && fs[(f.initiator, f.target)] == Accepted
      && f.status == Accepted
      && (f.initiator == user || f.target == user)
  {
    set k | k in fs && fs[k] == Accepted && (k.0 == user || k.1 == user) :: Friendship(k.0, k.1, Accepted)
  }

  /** `AmizadesRepository.update`: writes the status of the row stored under
      the record's own orientation; the database rejects a missing row. */
  function UpdateFriendship(fs: map<(Id, Id), Status>, f: Friendship): (r: Result<map<(Id, Id), Status>>)
    ensures r.Err? <==> (f.initiator, f.target) !in fs
    ensures r.Err? ==> r.error == RecordNotFound
    ensures r.Ok? ==> r.value.Keys == fs.Keys
    ensures r.Ok? ==> r.value[(f.initiator, f.target)] == f.status
    ensures r.Ok? ==> forall k :: k in fs && k != (f.initiator, f.target) ==> r.value[k] == fs[k]
  {
    if (f.initiator, f.target) in fs then Ok(fs[(f.initiator, f.target) := f.status])
    else Err(RecordNotFound)
  }

  /** `AmizadesRepository.delete`: removes the row stored exactly as
      (initiator, target); the database rejects a missing row. */
  function DeleteFriendship(fs: map<(Id, Id), Status>, initiator: Id, target: Id): (r: Result<map<(Id, Id), Status>>)
    ensures r.Err? <==> (initiator, target) !in fs
    ensures r.Err? ==> r.error == RecordNotFound
    ensures r.Ok? ==> r.value.Keys == fs.Keys - {(initiator, target)}
    ensures r.Ok? ==> forall k :: k in r.value ==> r.value[k] == fs[k]
  {
    if (initiator, target) in fs then Ok(fs - {(initiator, target)}) else Err(RecordNotFound)
  }

  /** At most one row per unordered pair and no row from a user to itself. */
  predicate FriendshipsWellFormed(fs: map<(Id, Id), Status>) {
    && (forall k :: k in fs ==> k.0 != k.1)
    && (forall k :: k in fs ==> (k.1, k.0) !in fs)
  }

  /** The lookup is symmetric: it finds a row between `a` and `b` exactly
      when it finds one between `b` and `a`, and on a well-formed table it
      is the same row. */
  lemma FindBetweenSymmetric(fs: map<(Id, Id), Status>, a: Id, b: Id)
    ensures FindBetween(fs, a, b).Some? <==> FindBetween(fs, b, a).Some?
    ensures FriendshipsWellFormed(fs) ==> FindBetween(fs, a, b) == FindBetween(fs, b, a)
  {
    if FriendshipsWellFormed(fs) && (a, b) in fs {
      assert (b, a) !in fs;
    }
  }

  /** The other member of a friendship row as seen by `user` (the client
      resolves it by comparing `user` with the initiator). */
  function OtherParty(f: Friendship, user: Id): Id {
    if f.initiator == user then f.target else f.initiator
  }

  /** For every accepted friendship listed for `user`, the other party is the
      member of the row that is not `user`, whichever of them initiated. */
  lemma AcceptedOtherParty(fs: map<(Id, Id), Status>, user: Id, f: Friendship)
    requires FriendshipsWellFormed(fs)
    requires f in FindAccepted(fs, user)
    ensures OtherParty(f, user) != user
    ensures {user, OtherParty(f, user)} == {f.initiator, f.target}
  {
    assert (f.initiator, f.target) in fs;
  }
}
