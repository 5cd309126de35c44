/**
 * The document text as the editor's text widget holds it, viewed as one flat
 * sequence of characters in which a line break is an ordinary character.
 * Under this view a widget index "idx+Nc" is the plain offset idx + N, and
 * the widget's two editing primitives are the splices below.
 */
module Text {

  /** True when `needle` occurs, exactly and case-sensitively, at offset `i` of `doc`. */
  predicate MatchAt(doc: string, needle: string, i: nat)
  {
    i + |needle| <= |doc| && doc[i..i + |needle|] == needle
  }

  /** The widget's `delete(start, end)`: removes the characters of `[start, end)`. */
  function Delete(doc: string, start: nat, end: nat): (r: string)
    requires start <= end <= |doc|
    ensures |r| == |doc| - (end - start)
    ensures r[..start] == doc[..start]
    ensures r[start..] == doc[end..]
  {
    doc[..start] + doc[end..]
  }

  /** The widget's `insert(pos, s)`: splices `s` in before offset `pos`. */
  function Insert(doc: string, pos: nat, s: string): (r: string)
    requires pos <= |doc|
    ensures |r| == |doc| + |s|
    ensures r[..pos] == doc[..pos]
    ensures r[pos..pos + |s|] == s
    ensures r[pos + |s|..] == doc[pos..]
  {
    doc[..pos] + s + doc[pos..]
  }

  /** Deleting exactly the span just inserted gives back the text as it was. */
  lemma DeleteUndoesInsert(doc: string, pos: nat, s: string)
    requires pos <= |doc|
    ensures Delete(Insert(doc, pos, s), pos, pos + |s|) == doc
  {
    var t := Insert(doc, pos, s);
    assert t[..pos] + t[pos + |s|..] == doc[..pos] + doc[pos..];
    assert doc[..pos] + doc[pos..] == doc;
  }

  /** Deleting a span and inserting the deleted characters at its start gives back the text. */
  lemma InsertUndoesDelete(doc: string, start: nat, end: nat)
    requires start <= end <= |doc|
    ensures Insert(Delete(doc, start, end), start, doc[start..end]) == doc
  {
    var t := Delete(doc, start, end);
    assert t[..start] == doc[..start];
    assert t[start..] == doc[end..];
    assert doc[..start] + doc[start..end] + doc[end..] == doc;
  }
}
