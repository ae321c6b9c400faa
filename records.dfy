/** The documents of the two collections, the password hasher, and the HTTP replies. */
module Records {
  import opened Wrappers

  /**
   * A document of the `users` collection. `password` holds the hash of the
   * password, never the plaintext. `username` is absent when the request
   * body had none; nothing makes it unique.
   */
  datatype User = User(username: Option<string>, password: string)

  /**
   * A document of the `books` collection. Every field is optional: a field the
   * stored object did not carry is absent, not defaulted. The JSON keys are
   * `id`, `author_name`, `cover_pic`, `about_book`, `rating`, `read_status`,
   * `title` and `about_author`.
   */
  datatype Book = Book(
    id: Option<string>,
    authorName: Option<string>,
    coverPic: Option<string>,
    aboutBook: Option<string>,
    rating: Option<real>,
    readStatus: Option<string>,
    title: Option<string>,
    aboutAuthor: Option<string>)

  /** The document stored for an add-book request whose body has no `book_details`. */
  const EmptyBook := Book(None, None, None, None, None, None, None, None)

  /** The random salt the hasher draws for each new hash. */
  type Salt = string

  /**
   * The adaptive password hasher, injected: `hash(pw, salt)` produces the stored
   * hash, `compare(pw, h)` verifies a password against a stored hash.
   */
  datatype Hasher = Hasher(hash: (string, Salt) -> string, compare: (string, string) -> bool)

  /** The one law the service relies on: a password verifies against any hash made from it. */
  ghost predicate Sound(h: Hasher) {
    forall pw, salt :: h.compare(pw, h.hash(pw, salt))
  }

  /** A string request field that JavaScript treats as true: present and not empty. */
  predicate Truthy(s: Option<string>) {
    s.Some? && s.value != ""
  }

  /** An HTTP reply: its status code and its JSON body. */
  datatype Reply =
    | Message(code: nat, message: string)   // { message }
    | Failure(code: nat, error: string)     // { error }
    | BookList(books: seq<Book>)            // 200 { books }
    | BookDetails(book: Book)               // 200 { book_details }

  const PasswordRequired := Failure(400, "Password is required")
  const UserRegistered := Message(201, "User registered successfully")
  const InvalidCredentials := Failure(401, "Invalid credentials")
  const LoginSuccessful := Message(200, "Login successful")
  const BookAdded := Message(201, "Book added successfully")
  const InvalidBookId := Failure(400, "Invalid book ID format")
  const BookNotFound := Failure(404, "Book not found")
  const InternalServerError := Failure(500, "Internal Server Error")
}
