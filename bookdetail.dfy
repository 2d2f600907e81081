/** The detail page of `js/book.js`: find the row whose identifier matches the
    `id` URL parameter and read its fields with their fallbacks. */
module BookDetail {
  import opened Wrappers
  import Csv

  type Book = Csv.Record

  /** `book[k] || ''`: the cell, or `''` when the column is missing. */
  function Field(b: Book, k: string): string {
    if k in b then b[k] else ""
  }

  /** `b.ID || b.Id || ''`. */
  function BookId(b: Book): (r: string)
    ensures "ID" in b && b["ID"] != "" ==> r == b["ID"]
    ensures ("ID" !in b || b["ID"] == "") && "Id" in b ==> r == b["Id"]
    ensures ("ID" !in b || b["ID"] == "") && "Id" !in b ==> r == ""
  {
    if Field(b, "ID") != "" then Field(b, "ID") else Field(b, "Id")
  }

  /** `books.find(b => (b.ID || b.Id || '') === id)`, as an index. */
  function FindBook(books: seq<Book>, id: string): (r: Option<nat>)
    ensures r.Some? ==> r.value < |books| && BookId(books[r.value]) == id
                        && forall j :: 0 <= j < r.value ==> BookId(books[j]) != id
    ensures r.None? ==> forall j :: 0 <= j < |books| ==> BookId(books[j]) != id
  {
    if books == [] then None
    else if BookId(books[0]) == id then Some(0)
    else
      match FindBook(books[1..], id)
      case None => None
      case Some(i) => Some(i + 1)
  }

  /** The values the page shows. */
  datatype Detail = Detail(title: string, abstractText: string, publicationDate: string,
                           publicationUrl: string, coverImage: string)

  /** The field reads of `loadBookDetail`: a missing or empty column gives `''`,
      and the cover comes from "Cover Image", else from "CoverImage". */
  function DetailOf(b: Book): (d: Detail)
    ensures d.title == (if "Title" in b then b["Title"] else "")
    ensures d.abstractText == (if "Abstract" in b then b["Abstract"] else "")
    ensures d.publicationDate == (if "Publication Date" in b then b["Publication Date"] else "")
    ensures d.publicationUrl == (if "Publication URL" in b then b["Publication URL"] else "")
    ensures "Cover Image" in b && b["Cover Image"] != "" ==> d.coverImage == b["Cover Image"]
    ensures ("Cover Image" !in b || b["Cover Image"] == "") && "CoverImage" in b ==> d.coverImage == b["CoverImage"]
    ensures ("Cover Image" !in b || b["Cover Image"] == "") && "CoverImage" !in b ==> d.coverImage == ""
  {
    var cover := if Field(b, "Cover Image") != "" then Field(b, "Cover Image") else Field(b, "CoverImage");
    Detail(Field(b, "Title"), Field(b, "Abstract"), Field(b, "Publication Date"),
           Field(b, "Publication URL"), cover)
  }

  /** How `loadBookDetail` ends: without an `id` ("Aucun ID de livre fourni."),
      without a matching row ("Livre introuvable pour ID"), or with the page filled. */
  datatype Outcome = MissingId | NotFound | Found(detail: Detail)

  /** `loadBookDetail` once the CSV rows are at hand; `id` is
      `params.get('id')`, `None` when the URL has no such parameter. */
  function LoadBookDetail(id: Option<string>, books: seq<Book>): (r: Outcome)
    ensures r == MissingId <==> id == None || id == Some("")
    ensures r == NotFound <==> id != None && id != Some("") && forall j :: 0 <= j < |books| ==> BookId(books[j]) != id.value
    ensures r.Found? ==> exists i :: 0 <= i < |books| && BookId(books[i]) == id.value && r.detail == DetailOf(books[i])
                                      && forall j :: 0 <= j < i ==> BookId(books[j]) != id.value
  {
    if id.None? || id.value == "" then MissingId
    else
      match FindBook(books, id.value)
      case None => NotFound
      case Some(i) => Found(DetailOf(books[i]))
  }
}
