/**
 * The decision each endpoint takes, as a function of the collections it reads
 * and of the request, with the properties the service promises of it.
 */
module Handlers {
  import opened Wrappers
  import opened Sequences
  import opened Records
  import opened Uuid
  import opened Text
  import opened BookQuery

  /** The lookup condition `{ username }`. */
  function HasName(name: string): User -> bool {
    (u: User) => u.username == Some(name)
  }

  /** The lookup condition `{ id }`. */
  function HasId(id: string): Book -> bool {
    (b: Book) => b.id == Some(id)
  }

  /**
   * Login: the first user with the name is looked up; with none, or with a
   * password that does not verify against its hash, the reply is 401. The
   * hasher refuses to compare a missing password, which ends in a 500.
   */
  function LoginReply(users: seq<User>, h: Hasher, username: string, password: Option<string>): Reply {
    match FirstIndex(users, HasName(username))
    case None => InvalidCredentials
    case Some(i) =>
      if password.None? then InternalServerError
      else if h.compare(password.value, users[i].password) then LoginSuccessful
      else InvalidCredentials
  }

  /** Get-by-id: the format is checked before any lookup; then 404, or the first book with the id. */
  function GetBookReply(books: seq<Book>, id: string): Reply {
    if !IsValidUuid(id) then InvalidBookId
    else match FirstIndex(books, HasId(id))
      case None => BookNotFound
      case Some(i) => BookDetails(books[i])
  }

  /** List-books: the stored books that the request's filters admit, in store order. */
  ghost function ListReply(books: seq<Book>, shelf: Option<string>, search: Option<string>): Reply {
    BookList(Filter(books, WantedBy(shelf, search)))
  }

  // ----- login -----

  /** The user with the name that login checks the password against: the first one stored. */
  ghost predicate IsLoginUser(users: seq<User>, username: string, i: nat) {
    IsFirst(users, HasName(username), i)
  }

  /**
   * Login succeeds exactly when a user has the name and the password verifies
   * against the first such user's hash; it answers 401, with one and the same
   * error, when no user has the name or when that password does not verify;
   * it answers 500 only when a user has the name but no password was sent.
   */
  lemma LoginCases(users: seq<User>, h: Hasher, username: string, password: Option<string>)
    ensures LoginReply(users, h, username, password) == LoginSuccessful <==>
      password.Some? && exists i: nat :: IsLoginUser(users, username, i) && h.compare(password.value, users[i].password)
    ensures LoginReply(users, h, username, password) == InvalidCredentials <==>
      (forall u :: u in users ==> u.username != Some(username)) ||
      (password.Some? && exists i: nat :: IsLoginUser(users, username, i) && !h.compare(password.value, users[i].password))
    ensures LoginReply(users, h, username, password) == InternalServerError <==>
      password.None? && exists u :: u in users && u.username == Some(username)
  {
    var r := FirstIndex(users, HasName(username));
    if r.Some? {
      FirstIndexIsFirst(users, HasName(username), r.value);
      forall i: nat | IsLoginUser(users, username, i) ensures i == r.value {
        FirstIndexIsFirst(users, HasName(username), i);
      }
      assert users[r.value] in users;
    }
  }

  /**
   * Registering a fresh name with a non-empty password and then logging in
   * with the same credentials succeeds.
   */
  lemma RegisterThenLogin(users: seq<User>, h: Hasher, username: string, password: string, salt: Salt)
    requires Sound(h)
    requires password != ""
    requires forall u :: u in users ==> u.username != Some(username)
    ensures LoginReply(users + [User(Some(username), h.hash(password, salt))], h, username, Some(password)) == LoginSuccessful
  {
    FirstIndexAppend(users, User(Some(username), h.hash(password, salt)), HasName(username));
  }

  /**
   * Names are not unique, and a later registration under a name already taken
   * changes nothing for login: the first user's hash is the one checked.
   */
  lemma LoginUsesFirstRegistration(users: seq<User>, h: Hasher, username: string, password: Option<string>, later: User)
    requires exists u :: u in users && u.username == Some(username)
    ensures LoginReply(users + [later], h, username, password) == LoginReply(users, h, username, password)
  {
    var r := FirstIndex(users, HasName(username));
    FirstIndexAppendKeeps(users, later, HasName(username), r.value);
  }

  // ----- get-by-id -----

  /** A malformed id is answered with 400 whatever the store holds. */
  lemma GetBookMalformedId(books: seq<Book>, id: string)
    requires !IsValidUuid(id)
    ensures GetBookReply(books, id) == InvalidBookId
    ensures forall other :: GetBookReply(other, id) == GetBookReply(books, id)
  {
  }

  /**
   * For a well-formed id the reply is 404 exactly when no stored book has the
   * id, and otherwise the first stored book with it.
   */
  lemma GetBookWellFormedId(books: seq<Book>, id: string)
    requires IsValidUuid(id)
    ensures GetBookReply(books, id) == BookNotFound <==> forall b :: b in books ==> b.id != Some(id)
    ensures forall i: nat :: IsFirst(books, HasId(id), i) ==> GetBookReply(books, id) == BookDetails(books[i])
  {
    forall i: nat | IsFirst(books, HasId(id), i) ensures GetBookReply(books, id) == BookDetails(books[i]) {
      FirstIndexIsFirst(books, HasId(id), i);
    }
  }

  /**
   * A book added under a well-formed id that no stored book carries is then
   * fetched by that id, field for field as it was added.
   */
  lemma AddThenGet(books: seq<Book>, book: Book, id: string)
    requires IsValidUuid(id) && book.id == Some(id)
    requires forall b :: b in books ==> b.id != Some(id)
    ensures GetBookReply(books + [book], id) == BookDetails(book)
  {
    FirstIndexAppend(books, book, HasId(id));
  }

  /** Adding a book under an id already stored does not change what fetching that id returns. */
  lemma AddUnderTakenId(books: seq<Book>, book: Book, id: string)
    requires exists b :: b in books && b.id == Some(id)
    ensures GetBookReply(books + [book], id) == GetBookReply(books, id)
  {
    var r := FirstIndex(books, HasId(id));
    FirstIndexAppendKeeps(books, book, HasId(id), r.value);
  }

  // ----- list-books -----

  /**
   * A book is listed exactly when it is stored and satisfies every active
   * filter: the `READING` shelf's status condition and the search's
   * case-insensitive title condition.
   */
  lemma ListMembership(books: seq<Book>, shelf: Option<string>, search: Option<string>, b: Book)
    ensures b in ListReply(books, shelf, search).books <==> b in books && Wanted(b, shelf, search)
  {
    if b in ListReply(books, shelf, search).books {
      FilterSound(books, WantedBy(shelf, search), b);
    }
    if b in books && Wanted(b, shelf, search) {
      FilterComplete(books, WantedBy(shelf, search), b);
    }
  }

  /** The listing keeps the books in store order: it is a subsequence of the collection. */
  lemma ListIsSubsequence(books: seq<Book>, shelf: Option<string>, search: Option<string>)
    ensures IsSubsequence(ListReply(books, shelf, search).books, books)
  {
    FilterIsSubsequence(books, WantedBy(shelf, search));
  }

  /** On the `READING` shelf only currently-reading and want-to-read books are listed. */
  lemma ListReadingShelf(books: seq<Book>, search: Option<string>)
    ensures forall b :: b in ListReply(books, Some(Reading), search).books ==>
      b.readStatus == Some(CurrentlyReading) || b.readStatus == Some(WantToRead)
  {
    forall b | b in ListReply(books, Some(Reading), search).books
      ensures b.readStatus == Some(CurrentlyReading) || b.readStatus == Some(WantToRead)
    {
      ListMembership(books, Some(Reading), search, b);
    }
  }

  /** With a non-empty search every listed title contains the search text, ignoring case. */
  lemma ListSearch(books: seq<Book>, shelf: Option<string>, search: string)
    requires search != ""
    ensures forall b :: b in ListReply(books, shelf, Some(search)).books ==>
      b.title.Some? && ContainsIgnoreCase(b.title.value, search)
  {
    forall b | b in ListReply(books, shelf, Some(search)).books
      ensures b.title.Some? && ContainsIgnoreCase(b.title.value, search)
    {
      ListMembership(books, shelf, Some(search), b);
    }
  }

  /** Any shelf other than `READING`, or none, imposes no condition on the status. */
  lemma ListOtherShelf(books: seq<Book>, shelf: Option<string>, search: Option<string>)
    requires shelf != Some(Reading)
    ensures ListReply(books, shelf, search) == ListReply(books, None, search)
  {
    FilterAgree(books, WantedBy(shelf, search), WantedBy(None, search));
  }

  /** With no `READING` shelf and no non-empty search, the whole collection is listed. */
  lemma ListUnfiltered(books: seq<Book>, shelf: Option<string>, search: Option<string>)
    requires shelf != Some(Reading) && !Truthy(search)
    ensures ListReply(books, shelf, search) == BookList(books)
  {
    FilterKeepsAll(books, WantedBy(shelf, search));
  }
}
