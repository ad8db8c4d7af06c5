/** Shared vocabulary of the GameHub model: identifiers, optional values and
    the typed failures that every business operation can report. */
module Basics {

  /** Database ids (autoincrement integers in the store). */
  type Id = int

  /** `T | null` in the source. */
  datatype Option<+T> = None | Some(value: T)

  /** The failures the business layer and the rule-bearing route handlers
      raise. In the source they are thrown `Error`s or early 4xx responses;
      here they are values. */
  datatype Error =
    | EmptyCart                    // 'Carrinho vazio'
    | UserNotFound                 // 'Usuário não encontrado' / 'Usuário ou amigo não encontrado'
    | TitleNotFound(title: Id)     // 'Jogo com ID … não encontrado'
    | AlreadyOwned(title: Id)      // 'Você já possui o jogo: …'
    | InsufficientBalance          // 'Saldo insuficiente'
    | InvalidRating                // 'Nota deve estar entre 0 e 10'
    | NotOwned                     // 'Você precisa possuir o jogo para fazer uma análise'
    | SelfFriendship               // 'Não é possível adicionar a si mesmo como amigo'
    | DuplicateFriendship          // 'Amizade já existe entre estes usuários'
    | FriendshipNotFound           // 404 'Amizade not found'
    | AlreadyInCart                // 400 'Jogo already in carrinho'
    | AlreadyInWishlist            // 400 'Jogo already in wishlist'
    | ReviewNotFound               // 404 'Analise not found'
    | LibraryEntryNotFound         // 404 'Biblioteca item not found'
    | NegativePlaytime             // 400 'Tempo_jogado must be >= 0'
    | RecordNotFound               // the database's update/delete of a missing key

  datatype Result<+T> = Ok(value: T) | Err(error: Error)
}
