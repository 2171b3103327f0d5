/** A member's favourite books: the store holds (user, book) pairs, at most
    one per pair (the unique compound index). Adding and removing change the
    store; checking and listing only read it. */
module Favorites {
  import opened Common
  import opened BookModel
  import opened BorrowRequestModel

  type Catalog = map<BookId, Book>

  datatype Favorite = Favorite(user: UserId, book: BookId)

  type Pairs = set<Favorite>

  datatype FavoriteError =
    | BookNotFound      // no book under the given id, or no id at all
    | AlreadyFavorite   // the caller already has the pair
    | FavoriteNotFound  // removal of a pair the caller does not have

  /** `checkFavorite`: whether the caller has the pair. */
  predicate IsFavorite(pairs: Pairs, user: UserId, book: BookId) {
    Favorite(user, book) in pairs
  }

  /** `getFavorites`: the caller's pairs and nobody else's. */
  function FavoritesOf(pairs: Pairs, user: UserId): (r: Pairs)
    ensures r <= pairs
    ensures forall p :: p in r ==> p.user == user
    ensures forall p :: p in pairs && p.user == user ==> p in r
  {
    set p | p in pairs && p.user == user
  }

  /** Checking agrees with listing: the book is a favourite exactly when its
      pair is on the caller's list. */
  lemma CheckAgreesWithList(pairs: Pairs, user: UserId, book: BookId)
    ensures IsFavorite(pairs, user, book) <==> Favorite(user, book) in FavoritesOf(pairs, user)
  {
  }

  /** After adding a pair, checking it gives true and every other check
      gives what it gave before. */
  lemma AddThenCheck(pairs: Pairs, user: UserId, book: BookId, u: UserId, b: BookId)
    ensures IsFavorite(pairs + {Favorite(user, book)}, user, book)
    ensures (u, b) != (user, book) ==> IsFavorite(pairs + {Favorite(user, book)}, u, b) == IsFavorite(pairs, u, b)
  {
  }

  /** After removing a pair, checking it gives false and every other check
      gives what it gave before. */
  lemma RemoveThenCheck(pairs: Pairs, user: UserId, book: BookId, u: UserId, b: BookId)
    ensures !IsFavorite(pairs - {Favorite(user, book)}, user, book)
    ensures (u, b) != (user, book) ==> IsFavorite(pairs - {Favorite(user, book)}, u, b) == IsFavorite(pairs, u, b)
  {
  }

  /** Adding or removing a pair of one member leaves every other member's
      list as it was. */
  lemma OtherListsUnchanged(pairs: Pairs, user: UserId, book: BookId, other: UserId)
    requires other != user
    ensures FavoritesOf(pairs + {Favorite(user, book)}, other) == FavoritesOf(pairs, other)
    ensures FavoritesOf(pairs - {Favorite(user, book)}, other) == FavoritesOf(pairs, other)
  {
  }

  /** Removing what was just added restores a store that lacked the pair. */
  lemma AddThenRemove(pairs: Pairs, user: UserId, book: BookId)
    requires !IsFavorite(pairs, user, book)
    ensures (pairs + {Favorite(user, book)}) - {Favorite(user, book)} == pairs
  {
  }

  class FavoriteStore {
    var pairs: Pairs

    constructor(pairs0: Pairs)
      ensures pairs == pairs0
    {
      pairs := pairs0;
    }

    /** `addFavorite`: the book must exist, and the pair must be new; then
        exactly that pair is added. */
    method AddFavorite(caller: UserId, bookId: Option<BookId>, books: Catalog)
      returns (r: Result<Favorite, FavoriteError>)
      modifies this
      ensures r == Err(BookNotFound) <==> bookId.None? || bookId.value !in books
      ensures r == Err(AlreadyFavorite) <==>
        (bookId.Some? && bookId.value in books && IsFavorite(old(pairs), caller, bookId.value))
      ensures r.Err? ==> pairs == old(pairs)
      ensures r.Ok? <==> bookId.Some? && bookId.value in books && !IsFavorite(old(pairs), caller, bookId.value)
      ensures r.Ok? ==> r.value == Favorite(caller, bookId.value) && pairs == old(pairs) + {r.value}
    {
      if bookId.None? || bookId.value !in books {
        return Err(BookNotFound);
      }
      var pair := Favorite(caller, bookId.value);
      if pair in pairs {
        return Err(AlreadyFavorite);
      }
      pairs := pairs + {pair};
      return Ok(pair);
    }

    /** `removeFavorite`: the caller's pair for the book must exist; then
        exactly that pair is removed. */
    method RemoveFavorite(caller: UserId, bookId: BookId) returns (r: Result<(), FavoriteError>)
      modifies this
      ensures r.Err? <==> !IsFavorite(old(pairs), caller, bookId)
      ensures r.Err? ==> r.error == FavoriteNotFound && pairs == old(pairs)
      ensures r.Ok? ==> pairs == old(pairs) - {Favorite(caller, bookId)}
    {
      var pair := Favorite(caller, bookId);
      if pair !in pairs {
        return Err(FavoriteNotFound);
      }
      pairs := pairs - {pair};
      return Ok(());
    }
  }
}
