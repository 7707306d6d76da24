/** The book catalog: book records keyed by ISBN, kept in insertion order, and the search over them. */
module Catalog {
  import opened Wrappers
  import opened Arguments
  import opened Text

  datatype Book = Book(title: string, author: string, genre: string, totalCopies: int)

  /** GENRES: the closed set of genres a book may have. */
  const Genres: seq<string> := ["Fiction", "Non-Fiction", "Sci-Fi", "Biography", "Education"]

  /** update_book's genre check: a genre, when given, must be one of Genres. */
  predicate GenreAccepted(genre: Option<string>)
  {
    !Supplied(genre) || genre.value in Genres
  }

  /** A book after update_book's writes: each given text field replaces the old one (the three
      `if arg: book[field] = arg` lines), and a given copy count replaces the old count. */
  function Revise(b: Book, title: Option<string>, author: Option<string>, genre: Option<string>, totalCopies: Option<int>): (r: Book)
    ensures !Supplied(title) && !Supplied(author) && !Supplied(genre) && totalCopies.None? ==> r == b
    ensures r.title != b.title ==> Supplied(title) && r.title == title.value
    ensures r.author != b.author ==> Supplied(author) && r.author == author.value
    ensures r.genre != b.genre ==> Supplied(genre) && r.genre == genre.value
    ensures r.totalCopies != b.totalCopies ==> totalCopies == Some(r.totalCopies)
    ensures Supplied(title) ==> r.title == title.value
    ensures Supplied(author) ==> r.author == author.value
    ensures Supplied(genre) ==> r.genre == genre.value
    ensures totalCopies.Some? ==> r.totalCopies == totalCopies.value
  {
    Book(Overwrite(title, b.title), Overwrite(author, b.author), Overwrite(genre, b.genre),
         if totalCopies.Some? then totalCopies.value else b.totalCopies)
  }

  /** Applying the same update twice gives the book that applying it once does. */
  lemma ReviseIdempotent(b: Book, title: Option<string>, author: Option<string>, genre: Option<string>, totalCopies: Option<int>)
    ensures Revise(Revise(b, title, author, genre, totalCopies), title, author, genre, totalCopies) == Revise(b, title, author, genre, totalCopies)
  {
  }

  /** update_book's three `if arg: book[field] = arg` writes, applied one after the other to the
      book's record. */
  method Relabel(book: Book, title: Option<string>, author: Option<string>, genre: Option<string>) returns (r: Book)
    ensures r == Revise(book, title, author, genre, None)
  {
    r := book;
    if Supplied(title) {
      r := r.(title := title.value);
    }
    if Supplied(author) {
      r := r.(author := author.value);
    }
    if Supplied(genre) {
      r := r.(genre := genre.value);
    }
  }

  /** The shape of an insertion-ordered dict: `order` lists the keys of `books`, each exactly once. */
  predicate Indexed(order: seq<string>, books: map<string, Book>)
  {
    && (forall i :: 0 <= i < |order| ==> order[i] in books)
    && (forall k :: k in books ==> k in order)
    && Distinct(order)
  }

  /** No key appears twice. */
  predicate Distinct(order: seq<string>)
  {
    forall i, j :: 0 <= i < j < |order| ==> order[i] != order[j]
  }

  /** Replacing the record of a key already present keeps the dict shape. */
  lemma IndexedUpdate(order: seq<string>, books: map<string, Book>, key: string, b: Book)
    requires Indexed(order, books) && key in books
    ensures Indexed(order, books[key := b])
  {
  }

  /** The key order left by `del books[key]`: the other keys, in their old order. */
  function Without(order: seq<string>, key: string): (r: seq<string>)
    ensures forall k :: k in r <==> k in order && k != key
  {
    if order == [] then []
    else if order[0] == key then Without(order[1..], key)
    else [order[0]] + Without(order[1..], key)
  }

  /** Deleting a key keeps the other keys in their old order: the key order left from a then b
      is what is left from a followed by what is left from b. */
  lemma {:induction false} WithoutConcat(a: seq<string>, b: seq<string>, key: string)
    ensures Without(a + b, key) == Without(a, key) + Without(b, key)
    decreases |a|
  {
    if a == [] {
      assert a + b == b;
    } else {
      assert (a + b)[0] == a[0];
      assert (a + b)[1..] == a[1..] + b;
      WithoutConcat(a[1..], b, key);
    }
  }

  /** Dropping a key from a list of distinct keys leaves them distinct. */
  lemma {:induction false} WithoutDistinct(order: seq<string>, key: string)
    requires Distinct(order)
    ensures Distinct(Without(order, key))
    decreases |order|
  {
    if order != [] {
      TailDistinct(order);
      WithoutDistinct(order[1..], key);
      if order[0] != key {
        ConsDistinct(order[0], Without(order[1..], key));
      }
    }
  }

  /** The tail of a duplicate-free list is duplicate-free and does not hold its head. */
  lemma TailDistinct(order: seq<string>)
    requires Distinct(order) && order != []
    ensures Distinct(order[1..]) && order[0] !in order[1..]
  {
    var t := order[1..];
    forall i, j | 0 <= i < j < |t| ensures t[i] != t[j] {
      assert t[i] == order[i + 1] && t[j] == order[j + 1];
    }
    forall i | 0 <= i < |t| ensures t[i] != order[0] {
      assert t[i] == order[i + 1];
    }
  }

  /** Putting a key that is not in a duplicate-free list in front of it keeps it duplicate-free. */
  lemma ConsDistinct(x: string, rest: seq<string>)
    requires Distinct(rest) && x !in rest
    ensures Distinct([x] + rest)
  {
    var w := [x] + rest;
    forall i, j | 0 <= i < j < |w| ensures w[i] != w[j] {
      assert w[j] == rest[j - 1];
      if i > 0 {
        assert w[i] == rest[i - 1];
      }
    }
  }

  /** Deleting a key keeps the dict shape. */
  lemma WithoutIndexed(order: seq<string>, books: map<string, Book>, key: string)
    requires Indexed(order, books)
    ensures Indexed(Without(order, key), books - {key})
  {
    WithoutDistinct(order, key);
    var w := Without(order, key);
    forall k | k in books - {key} ensures k in w {
      assert k in order;
    }
    forall i | 0 <= i < |w| ensures w[i] in books - {key} {
      assert w[i] in w;
    }
  }

  /** Whether a book is a hit of search_books for the field named by `field` and the lower-cased
      query q: only "author" and "title" name a field, and any other `field` matches nothing. */
  predicate Matches(b: Book, q: string, field: string)
  {
    if field == "author" then Contains(Lower(b.author), q)
    else if field == "title" then Contains(Lower(b.title), q)
    else false
  }

  /** The (ISBN, book) pairs of the catalog that match, in the order of `order`. */
  function Matching(order: seq<string>, books: map<string, Book>, q: string, field: string): (r: seq<(string, Book)>)
    requires forall i :: 0 <= i < |order| ==> order[i] in books
  {
    if order == [] then []
    else
      var rest := Matching(order[..|order| - 1], books, q, field);
      var isbn := order[|order| - 1];
      if Matches(books[isbn], q, field) then rest + [(isbn, books[isbn])] else rest
  }

  /** A pair is a search result exactly when its ISBN is in the catalog, it carries that ISBN's
      book, and the book matches. */
  lemma {:induction false} MatchingHits(order: seq<string>, books: map<string, Book>, q: string, field: string)
    requires forall i :: 0 <= i < |order| ==> order[i] in books
    ensures forall p :: p in Matching(order, books, q, field) <==> p.0 in order && p.1 == books[p.0] && Matches(p.1, q, field)
  {
    if order != [] {
      var init := order[..|order| - 1];
      MatchingHits(init, books, q, field);
      assert order == init + [order[|order| - 1]];
      forall p ensures p in Matching(order, books, q, field) <==> p.0 in order && p.1 == books[p.0] && Matches(p.1, q, field) {
        assert p.0 in order <==> p.0 in init || p.0 == order[|order| - 1];
      }
    }
  }

  /** Results follow catalog order: searching a catalog whose keys are a then b gives a's
      results followed by b's. */
  lemma {:induction false} MatchingConcat(a: seq<string>, b: seq<string>, books: map<string, Book>, q: string, field: string)
    requires forall i :: 0 <= i < |a| ==> a[i] in books
    requires forall i :: 0 <= i < |b| ==> b[i] in books
    ensures Matching(a + b, books, q, field) == Matching(a, books, q, field) + Matching(b, books, q, field)
    decreases |b|
  {
    if b == [] {
      assert a + b == a;
    } else {
      var init := b[..|b| - 1];
      MatchingConcat(a, init, books, q, field);
      assert (a + b)[..|a + b| - 1] == a + init;
    }
  }

  /** A field other than "title" or "author" finds nothing. */
  lemma {:induction false} MatchingUnknownField(order: seq<string>, books: map<string, Book>, q: string, field: string)
    requires forall i :: 0 <= i < |order| ==> order[i] in books
    requires field != "title" && field != "author"
    ensures Matching(order, books, q, field) == []
  {
    if order != [] {
      MatchingUnknownField(order[..|order| - 1], books, q, field);
    }
  }

  /** Every entry of the catalog, in order. */
  function Entries(order: seq<string>, books: map<string, Book>): (r: seq<(string, Book)>)
    requires forall i :: 0 <= i < |order| ==> order[i] in books
    ensures |r| == |order|
    ensures forall p :: p in r <==> p.0 in order && p.1 == books[p.0]
  {
    var r := seq(|order|, i requires 0 <= i < |order| => (order[i], books[order[i]]));
    PositionsListed(order, books, r);
    r
  }

  /** A list holding, at each position, that position's key paired with its book holds exactly
      the catalog's entries for those keys. */
  lemma PositionsListed(order: seq<string>, books: map<string, Book>, r: seq<(string, Book)>)
    requires forall i :: 0 <= i < |order| ==> order[i] in books
    requires |r| == |order| && forall i :: 0 <= i < |order| ==> r[i] == (order[i], books[order[i]])
    ensures forall p :: p in r <==> p.0 in order && p.1 == books[p.0]
  {
    forall p: (string, Book) | p.0 in order && p.1 == books[p.0] ensures p in r {
      var j :| 0 <= j < |order| && order[j] == p.0;
      assert r[j] == p;
    }
  }

  /** The empty query matches every book, by title and by author alike. */
  lemma {:induction false} MatchingEmptyQuery(order: seq<string>, books: map<string, Book>, field: string)
    requires forall i :: 0 <= i < |order| ==> order[i] in books
    requires field == "title" || field == "author"
    ensures Matching(order, books, "", field) == Entries(order, books)
  {
    if order != [] {
      var init := order[..|order| - 1];
      MatchingEmptyQuery(init, books, field);
      var isbn := order[|order| - 1];
      ContainsEmpty(Lower(books[isbn].title));
      ContainsEmpty(Lower(books[isbn].author));
      assert Entries(order, books) == Entries(init, books) + [(isbn, books[isbn])];
    }
  }
}
