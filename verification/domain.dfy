/** The domain entities of GameHub (`domain.ts`) and their small mutators.
    Each source method that mutates `this` becomes a pure function from the
    old record to the new one. Creation timestamps and database ids are
    not part of the records: ids are the keys of the store's maps. */
module Domain {
  import opened Basics

  /** `Usuario`: the account and its balance (`saldo`). */
  datatype User = User(name: string, email: string, password: string, balance: real)

  /** `Jogo`: a purchasable title and its current price (`preco`). */
  datatype Title = Title(name: string, price: real)

  /** `Transacao`: one completed checkout and the amount charged. */
  datatype Transaction = Transaction(user: Id, total: real)

  /** `ItemTransacao`: composite key (title, transaction). */
  datatype LineItem = LineItem(title: Id, transaction: Id)

  /** `Carrinho` / `Wishlist` rows: composite key (title, user). */
  datatype CartEntry = CartEntry(title: Id, user: Id)

  /** `Biblioteca`: ownership of a title plus the played time. */
  datatype LibraryEntry = LibraryEntry(playtime: real)

  /** `Analise`: a rating in [0, 10] and an optional text. */
  datatype Review = Review(rating: real, text: Option<string>)

  /** The three status strings the code writes: 'pendente', 'aceita', 'rejeitada'. */
  datatype Status = Pending | Accepted | Rejected

  /** `Amizades`: a directed row (initiator `id_usuario`, target `id_amigo`). */
  datatype Friendship = Friendship(initiator: Id, target: Id, status: Status)

  predicate ValidRating(n: real) {
    0.0 <= n <= 10.0
  }

  // ---------------------------------------------------------------- Usuario

  /** `new Usuario(nome, email, senha, saldo = 0)`: an omitted balance is 0. */
  function NewUser(name: string, email: string, password: string, balance: Option<real>): (u: User)
    ensures balance.None? ==> u.balance == 0.0
    ensures balance.Some? ==> u.balance == balance.value
    ensures u.name == name && u.email == email && u.password == password
  {
    User(name, email, password, if balance.Some? then balance.value else 0.0)
  }

  /** `Usuario.adicionarSaldo`: credits only strictly positive amounts. */
  function AddBalance(u: User, amount: real): (r: User)
    ensures amount > 0.0 ==> r.balance - u.balance == amount
    ensures amount <= 0.0 ==> r == u
    ensures r.balance >= u.balance
    ensures r.(balance := u.balance) == u
  {
    if amount > 0.0 then u.(balance := u.balance + amount) else u
  }

  /** `Usuario.debitarSaldo`: debits a positive amount the balance covers and
      reports whether it did; otherwise nothing changes. */
  function DebitBalance(u: User, amount: real): (r: (User, bool))
    ensures r.1 <==> amount > 0.0 && u.balance >= amount
    ensures r.1 ==> u.balance - r.0.balance == amount
    ensures !r.1 ==> r.0 == u
    ensures r.0.(balance := u.balance) == u
    ensures u.balance >= 0.0 ==> r.0.balance >= 0.0
    ensures r.0.balance <= u.balance
  {
    if amount > 0.0 && u.balance >= amount then
      (u.(balance := u.balance - amount), true)
    else
      (u, false)
  }

  /** On a non-negative balance, a credit followed by a debit of the same
      positive amount succeeds and restores the account exactly. */
  lemma DebitUndoesAdd(u: User, amount: real)
    requires u.balance >= 0.0 && amount > 0.0
    ensures DebitBalance(AddBalance(u, amount), amount) == (u, true)
  {
    var credited := AddBalance(u, amount);
    var debited := DebitBalance(credited, amount);
    assert debited.0.balance == u.balance;
    assert debited.0 == User(u.name, u.email, u.password, u.balance);
  }

  /** The debit of `amount` as the checkout applies it (its result ignored):
      for a non-negative amount within the balance, the balance drops by
      exactly `amount`, the amount 0 included. */
  lemma DebitExact(u: User, amount: real)
    requires 0.0 <= amount <= u.balance
    ensures DebitBalance(u, amount).0.balance == u.balance - amount
    ensures DebitBalance(u, amount).1 <==> amount > 0.0
  {
  }

  // ------------------------------------------------------------------- Jogo

  /** `Jogo.aplicarDesconto`: a percentage in (0, 100] scales the price down by
      that percentage; any other percentage is ignored. */
  function ApplyDiscount(t: Title, percent: real): (r: Title)
    ensures !(0.0 < percent <= 100.0) ==> r == t
    ensures 0.0 < percent <= 100.0 ==> r.price + t.price * percent / 100.0 == t.price
    ensures 0.0 < percent <= 100.0 && t.price >= 0.0 ==> 0.0 <= r.price <= t.price
    ensures 0.0 < percent <= 100.0 && t.price > 0.0 ==> r.price < t.price
    ensures percent == 100.0 ==> r.price == 0.0
    ensures r.name == t.name
  {
    if 0.0 < percent <= 100.0 then
      DiscountBounds(t.price, percent);
      t.(price := t.price * (1.0 - percent / 100.0))
    else
      t
  }

  /** The arithmetic behind `ApplyDiscount`'s contract. */
  lemma DiscountBounds(price: real, percent: real)
    requires 0.0 < percent <= 100.0
    ensures price * (1.0 - percent / 100.0) + price * percent / 100.0 == price
    ensures price >= 0.0 ==> 0.0 <= price * (1.0 - percent / 100.0) <= price
    ensures price > 0.0 ==> price * (1.0 - percent / 100.0) < price
    ensures percent == 100.0 ==> price * (1.0 - percent / 100.0) == 0.0
  {
    var f := 1.0 - percent / 100.0;
    assert 0.0 <= f < 1.0;
    if price >= 0.0 {
      assert price * f <= price * 1.0;
    }
  }

  // ---------------------------------------------------------------- Analise

  /** `new Analise(id_jogo, id_usuario, nota, texto = null)`: an omitted text
      is absent. */
  function NewReview(rating: real, text: Option<string>): (r: Review)
    ensures r.rating == rating
    ensures text.None? ==> r.text.None?
    ensures text.Some? ==> r.text == text
  {
    Review(rating, text)
  }

  /** `Analise.atualizarNota`: assigns only a rating in [0, 10]. */
  function UpdateRating(rv: Review, rating: real): (r: Review)
    ensures ValidRating(rating) ==> r.rating == rating
    ensures !ValidRating(rating) ==> r == rv
    ensures r.text == rv.text
    ensures ValidRating(rv.rating) ==> ValidRating(r.rating)
  {
    if ValidRating(rating) then rv.(rating := rating) else rv
  }

  /** `Analise.atualizarTexto`: overwrites the text unconditionally, the empty
      string included. */
  function UpdateText(rv: Review, text: string): (r: Review)
    ensures r.text == Some(text)
    ensures r.rating == rv.rating
  {
    rv.(text := Some(text))
  }

  // ------------------------------------------------------------- Biblioteca

  /** `new Biblioteca(id_jogo, id_usuario, tempo_jogado = 0)`. */
  function NewLibraryEntry(playtime: Option<real>): (e: LibraryEntry)
    ensures playtime.None? ==> e.playtime == 0.0
    ensures playtime.Some? ==> e.playtime == playtime.value
  {
    LibraryEntry(if playtime.Some? then playtime.value else 0.0)
  }

  /** `Biblioteca.adicionarTempoJogado`: adds positive hours, ignores the rest;
      played time never decreases. */
  function AddPlaytime(e: LibraryEntry, hours: real): (r: LibraryEntry)
    ensures hours > 0.0 ==> r.playtime - e.playtime == hours
    ensures hours <= 0.0 ==> r == e
    ensures r.playtime >= e.playtime
  {
    if hours > 0.0 then e.(playtime := e.playtime + hours) else e
  }

  // --------------------------------------------------------------- Amizades

  /** `Amizades.aceitar`. */
  function Accept(f: Friendship): (r: Friendship)
    ensures r.status == Accepted
    ensures r.initiator == f.initiator && r.target == f.target
  {
    f.(status := Accepted)
  }

  /** `Amizades.rejeitar`. */
  function Reject(f: Friendship): (r: Friendship)
    ensures r.status == Rejected
    ensures r.initiator == f.initiator && r.target == f.target
  {
    f.(status := Rejected)
  }

  /** `Amizades.pendente`. */
  function MarkPending(f: Friendship): (r: Friendship)
    ensures r.status == Pending
    ensures r.initiator == f.initiator && r.target == f.target
  {
    f.(status := Pending)
  }

  /** The status setters are idempotent, and the last one applied wins
      whatever the status was before. */
  lemma StatusSettersIdempotent(f: Friendship)
    ensures Accept(Accept(f)) == Accept(f)
    ensures Reject(Reject(f)) == Reject(f)
    ensures MarkPending(MarkPending(f)) == MarkPending(f)
    ensures Accept(Reject(f)) == Accept(f) && Reject(Accept(f)) == Reject(f)
    ensures Accept(MarkPending(f)) == Accept(f) && Reject(MarkPending(f)) == Reject(f)
  {
  }
}
