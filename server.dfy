/**
 * The service over its document store: the `users` and `books` collections
 * held in memory, in insertion order, and the endpoint handlers that read and
 * append to them.
 */
module Server {
  import opened Wrappers
  import opened Sequences
  import opened Records
  import opened Uuid
  import opened Text
  import opened BookQuery
  import opened Handlers

  class Store {
    var users: seq<User>
    var books: seq<Book>
    const hasher: Hasher

    /** The injected hasher keeps its law. */
    ghost predicate HasherSound() {
      Sound(hasher)
    }

    /** An empty store over the given hasher. */
    constructor (h: Hasher)
      requires Sound(h)
      ensures HasherSound() && hasher == h
      ensures users == [] && books == []
    {
      hasher := h;
      users := [];
      books := [];
    }

    /**
     * POST /api/register: a missing or empty password is refused with 400 and
     * nothing is stored; otherwise exactly one user, holding the hash of the
     * password under the fresh `salt`, is appended.
     */
    method Register(username: Option<string>, password: Option<string>, salt: Salt) returns (reply: Reply)
      modifies this
      ensures books == old(books)
      ensures !Truthy(password) ==> reply == PasswordRequired && users == old(users)
      ensures Truthy(password) ==>
        reply == UserRegistered && users == old(users) + [User(username, hasher.hash(password.value, salt))]
    {
      if !Truthy(password) {
        return PasswordRequired;
      }
      var hashed := hasher.hash(password.value, salt);
      users := users + [User(username, hashed)];
      reply := UserRegistered;
    }

    /** POST /api/login: looks up the first user with the name and verifies the password; stores nothing. */
    method Login(username: string, password: Option<string>) returns (reply: Reply)
      ensures reply == LoginReply(users, hasher, username, password)
    {
      var found := FindFirst(users, HasName(username));
      if found.None? {
        return InvalidCredentials;
      }
      if password.None? {
        return InternalServerError;
      }
      var valid := hasher.compare(password.value, users[found.value].password);
      if !valid {
        return InvalidCredentials;
      }
      reply := LoginSuccessful;
    }

    /**
     * POST /api/books: appends the submitted record as it is (an empty
     * document when the body has no `book_details`).
     */
    method AddBook(details: Option<Book>) returns (reply: Reply)
      modifies this
      ensures users == old(users)
      ensures books == old(books) + [details.GetOr(EmptyBook)]
      ensures reply == BookAdded
    {
      books := books + [details.GetOr(EmptyBook)];
      reply := BookAdded;
    }

    /** GET /api/books: builds the filter document and lists the matching books in store order. */
    method ListBooks(shelf: Option<string>, search: Option<string>) returns (reply: Reply)
      requires search.Some? ==> IsLiteral(search.value)
      ensures reply == ListReply(books, shelf, search)
    {
      var query := BuildQuery(shelf, search);
      var found := FindAll(books, MatchedBy(query));
      FilterAgree(books, MatchedBy(query), WantedBy(shelf, search));
      reply := BookList(found);
    }

    /** GET /api/top-rated-books: the whole collection, neither sorted nor filtered. */
    method TopRatedBooks() returns (reply: Reply)
      ensures reply == BookList(books)
    {
      var found := FindAll(books, MatchedBy(MatchAll));
      forall b | b in books ensures MatchedBy(MatchAll)(b) {
        MatchAllMatches(b);
      }
      FilterKeepsAll(books, MatchedBy(MatchAll));
      reply := BookList(found);
    }

    /** GET /api/books/:id: 400 for a malformed id before any lookup, then 404 or the first match. */
    method GetBookById(id: string) returns (reply: Reply)
      ensures reply == GetBookReply(books, id)
    {
      if !IsValidUuid(id) {
        return InvalidBookId;
      }
      var found := FindFirst(books, HasId(id));
      if found.None? {
        return BookNotFound;
      }
      reply := BookDetails(books[found.value]);
    }
  }

  /** A client registering a fresh name and then logging in with the same password is let in. */
  method RegisterThenLoginClient(store: Store, username: string, password: string, salt: Salt) returns (reply: Reply)
    requires store.HasherSound() && password != ""
    requires forall u :: u in store.users ==> u.username != Some(username)
    modifies store
    ensures reply == LoginSuccessful
  {
    var registered := store.Register(Some(username), Some(password), salt);
    Handlers.RegisterThenLogin(old(store.users), store.hasher, username, password, salt);
    reply := store.Login(username, Some(password));
  }

  /** A client adding a book under a fresh well-formed id and then fetching it gets the record back. */
  method AddThenGetClient(store: Store, book: Book, id: string) returns (reply: Reply)
    requires IsValidUuid(id) && book.id == Some(id)
    requires forall b :: b in store.books ==> b.id != Some(id)
    modifies store
    ensures reply == BookDetails(book)
  {
    var added := store.AddBook(Some(book));
    Handlers.AddThenGet(old(store.books), book, id);
    reply := store.GetBookById(id);
  }
}
