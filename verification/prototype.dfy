/**
 * The root prototype (crdt.go): a document that is a plain list of items,
 * a checked constructor for single characters, and the text a document
 * shows.
 */
module Prototype {
  import opened Base
  import opened Items

  /** The one error of the prototype: "input must be a single Unicode character". */
  datatype Error = NotSingleCharacter

  /** Go's `(UnicodeCharacter, error)` pair: on failure the character is the empty string. */
  datatype CharOrError = CharOrError(ch: UnicodeCharacter, err: Option<Error>)

  /**
   * Accepts exactly the strings of one rune. A string here is a sequence of
   * code points, so its rune count is its length.
   */
  function NewUnicodeCharacter(s: string): (r: CharOrError)
    ensures r.err.None? <==> |s| == 1
    ensures r.err.None? ==> r.ch == s && |r.ch| == 1
    ensures r.err.Some? ==> r.ch == "" && r.err.value == NotSingleCharacter
  {
    if |s| != 1 then CharOrError("", Some(NotSingleCharacter))
    else CharOrError(s, None)
  }

  /** The prototype document is the item list itself. */
  type Doc = seq<Item>

  function NewDoc(): (d: Doc)
    ensures |d| == 0 && Visible(d) == 0 && Content(d) == ""
  {
    []
  }

  /** The live items' contents in list order; a document of tombstones only shows nothing. */
  method StringContent(d: Doc) returns (r: string)
    ensures r == Content(d)
    ensures (forall i :: 0 <= i < |d| ==> d[i].deleted) ==> r == ""
  {
    r := ConcatVisible(d);
    if forall i :: 0 <= i < |d| ==> d[i].deleted {
      ContentAllDeleted(d);
    }
  }

  /** Appending a live item, as the demo driver does, extends the text by exactly its content. */
  lemma AppendLiveItem(d: Doc, x: Item)
    requires !x.deleted
    ensures Content(d + [x]) == Content(d) + x.content
    ensures Visible(d + [x]) == Visible(d) + 1
  {
    ContentAppendItem(d, x);
  }

  /** Appending a tombstone leaves the text unchanged. */
  lemma AppendDeletedItem(d: Doc, x: Item)
    requires x.deleted
    ensures Content(d + [x]) == Content(d)
    ensures Visible(d + [x]) == Visible(d)
  {
    ContentAppendItem(d, x);
  }
}
