/**
 * Literal search and replace-all over the document text (the editor's
 * find and replace commands). Search is exact and case-sensitive, runs
 * forward from a start offset to the end of the text and never wraps.
 */
module Search {
  import opened Wrappers
  import opened Text

  /**
   * The widget's forward `search(needle, from, stopindex=END)`: the least
   * offset at or after `from` where `needle` occurs, or None.
   */
  function FindFrom(doc: string, needle: string, from: nat): (r: Option<nat>)
    ensures r.Some? ==> from <= r.value && MatchAt(doc, needle, r.value)
    ensures r.Some? ==> forall j :: from <= j < r.value ==> !MatchAt(doc, needle, j)
    ensures r.None? ==> forall j :: from <= j ==> !MatchAt(doc, needle, j)
    decreases |doc| - from
  {
    if from + |needle| > |doc| then None
    else if MatchAt(doc, needle, from) then Some(from)
    else FindFrom(doc, needle, from + 1)
  }

  /** Any offset that is the least match at or after `from` is what FindFrom returns. */
  lemma FindFromIsLeast(doc: string, needle: string, from: nat, i: nat)
    requires from <= i && MatchAt(doc, needle, i)
    requires forall j :: from <= j < i ==> !MatchAt(doc, needle, j)
    ensures FindFrom(doc, needle, from) == Some(i)
  {
  }

  /**
   * Two texts that agree from offsets p and q onwards have the same matches
   * there: searching from the cursor never looks behind it.
   */
  lemma MatchShift(a: string, p: nat, b: string, q: nat, needle: string, d: nat)
    requires p <= |a| && q <= |b| && a[p..] == b[q..]
    ensures MatchAt(a, needle, p + d) <==> MatchAt(b, needle, q + d)
  {
    var n := |needle|;
    if p + d + n <= |a| {
      SliceOfSuffix(a, p, d, n);
      SliceOfSuffix(b, q, d, n);
    }
  }

  /** A slice of a suffix is a slice of the whole text, offset by where the suffix starts. */
  lemma SliceOfSuffix(a: string, p: nat, d: nat, n: nat)
    requires p + d + n <= |a|
    ensures a[p..][d..d + n] == a[p + d..p + d + n]
  {
  }

  /** FindFrom on texts that agree from offsets p and q finds the same match, shifted. */
  lemma FindFromShift(a: string, p: nat, b: string, q: nat, needle: string)
    requires p <= |a| && q <= |b| && a[p..] == b[q..]
    ensures FindFrom(a, needle, p).None? ==> FindFrom(b, needle, q).None?
    ensures FindFrom(a, needle, p).Some? ==>
              FindFrom(b, needle, q) == Some(q + (FindFrom(a, needle, p).value - p))
  {
    if FindFrom(a, needle, p).Some? {
      FindFromShiftFound(a, p, b, q, needle, FindFrom(a, needle, p).value);
    } else if FindFrom(b, needle, q).Some? {
      var j := FindFrom(b, needle, q).value;
      MatchShift(a, p, b, q, needle, j - q);
      assert false;
    }
  }

  /** FindFromShift when the search in `a` succeeds at offset i. */
  lemma FindFromShiftFound(a: string, p: nat, b: string, q: nat, needle: string, i: nat)
    requires p <= |a| && q <= |b| && a[p..] == b[q..]
    requires FindFrom(a, needle, p) == Some(i)
    ensures FindFrom(b, needle, q) == Some(q + (i - p))
  {
    var d := i - p;
    MatchShift(a, p, b, q, needle, d);
    forall j | q <= j < q + d
      ensures !MatchAt(b, needle, j)
    {
      NoMatchShift(a, p, b, q, needle, i, j);
    }
    FindFromIsLeast(b, needle, q, q + d);
  }

  /** An offset in `b` before the shifted match corresponds to a non-match in `a`. */
  lemma NoMatchShift(a: string, p: nat, b: string, q: nat, needle: string, i: nat, j: nat)
    requires p <= |a| && q <= |b| && a[p..] == b[q..]
    requires FindFrom(a, needle, p) == Some(i)
    requires q <= j < q + (i - p)
    ensures !MatchAt(b, needle, j)
  {
    assert !MatchAt(a, needle, p + (j - q));
    MatchShift(a, p, b, q, needle, j - q);
  }

  /**
   * Reference replace-all: scan the ORIGINAL text left to right from offset
   * k, replacing each non-overlapping occurrence of `needle` by `repl` and
   * resuming right after it.
   */
  function RefFrom(doc: string, needle: string, repl: string, k: nat): string
    requires |needle| > 0 && k <= |doc|
    decreases |doc| - k
  {
    if k + |needle| > |doc| then doc[k..]
    else if MatchAt(doc, needle, k) then repl + RefFrom(doc, needle, repl, k + |needle|)
    else [doc[k]] + RefFrom(doc, needle, repl, k + 1)
  }

  /** The reference replace-all of the whole text. */
  function ReplaceRef(doc: string, needle: string, repl: string): string
    requires |needle| > 0
  {
    RefFrom(doc, needle, repl, 0)
  }

  /**
   * The reference unfolds at the next occurrence: the text before it is
   * kept, the occurrence becomes `repl`, and scanning resumes after it.
   */
  lemma {:induction false} RefAtMatch(doc: string, needle: string, repl: string, k: nat, j: nat)
    requires |needle| > 0 && k <= |doc|
    requires FindFrom(doc, needle, k) == Some(j)
    ensures j + |needle| <= |doc|
    ensures RefFrom(doc, needle, repl, k) ==
            doc[k..j] + repl + RefFrom(doc, needle, repl, j + |needle|)
    decreases j - k
  {
    if MatchAt(doc, needle, k) {
      RefAtHere(doc, needle, repl, k, j);
    } else {
      assert FindFrom(doc, needle, k + 1) == Some(j);
      RefAtMatch(doc, needle, repl, k + 1, j);
      RefSkipOne(doc, needle, repl, k, j);
    }
  }

  /** RefAtMatch when the occurrence is right at the scan position. */
  lemma RefAtHere(doc: string, needle: string, repl: string, k: nat, j: nat)
    requires |needle| > 0 && k <= |doc| && MatchAt(doc, needle, k)
    requires FindFrom(doc, needle, k) == Some(j)
    ensures j == k && j + |needle| <= |doc|
    ensures RefFrom(doc, needle, repl, k) ==
            doc[k..j] + repl + RefFrom(doc, needle, repl, j + |needle|)
  {
    assert doc[k..k] == [];
  }

  /** RefAtMatch one position before the scan reaches the occurrence. */
  lemma RefSkipOne(doc: string, needle: string, repl: string, k: nat, j: nat)
    requires |needle| > 0 && k < j && j + |needle| <= |doc| && !MatchAt(doc, needle, k)
    requires RefFrom(doc, needle, repl, k + 1) ==
             doc[k + 1..j] + repl + RefFrom(doc, needle, repl, j + |needle|)
    ensures RefFrom(doc, needle, repl, k) ==
            doc[k..j] + repl + RefFrom(doc, needle, repl, j + |needle|)
  {
    var rest := RefFrom(doc, needle, repl, j + |needle|);
    assert RefFrom(doc, needle, repl, k) == [doc[k]] + RefFrom(doc, needle, repl, k + 1);
    Regroup([doc[k]], doc[k + 1..j], repl, rest);
    assert doc[k..j] == [doc[k]] + doc[k + 1..j];
  }

  /** Concatenation regrouped: `a + ((b + c) + d) == ((a + b) + c) + d`. */
  lemma Regroup(a: string, b: string, c: string, d: string)
    ensures a + (b + c + d) == a + b + c + d
  {
  }

  /** With no occurrence left from offset k, the reference keeps the rest of the text as is. */
  lemma {:induction false} RefNoMatch(doc: string, needle: string, repl: string, k: nat)
    requires |needle| > 0 && k <= |doc|
    requires FindFrom(doc, needle, k).None?
    ensures RefFrom(doc, needle, repl, k) == doc[k..]
    decreases |doc| - k
  {
    if k + |needle| <= |doc| {
      RefNoMatch(doc, needle, repl, k + 1);
      assert doc[k..] == [doc[k]] + doc[k + 1..];
    }
  }

  /** Replace-all leaves a text without any occurrence of the needle unchanged. */
  lemma ReplaceRefNoMatch(doc: string, needle: string, repl: string)
    requires |needle| > 0
    requires forall j :: !MatchAt(doc, needle, j)
    ensures ReplaceRef(doc, needle, repl) == doc
  {
    RefNoMatch(doc, needle, repl, 0);
  }

  /** Replacing every occurrence of a needle by itself leaves the text as it was. */
  lemma {:induction false} RefBySelf(doc: string, needle: string, k: nat)
    requires |needle| > 0 && k <= |doc|
    ensures RefFrom(doc, needle, needle, k) == doc[k..]
    decreases |doc| - k
  {
    if k + |needle| > |doc| {
    } else if MatchAt(doc, needle, k) {
      RefBySelf(doc, needle, k + |needle|);
      assert doc[k..] == doc[k..k + |needle|] + doc[k + |needle|..];
    } else {
      RefBySelf(doc, needle, k + 1);
      assert doc[k..] == [doc[k]] + doc[k + 1..];
    }
  }

  /**
   * The editor's replace loop: search from the cursor, delete the match,
   * insert the replacement at its start, and move the cursor past the
   * inserted text so that it is never searched again.
   */
  method ReplaceAll(doc: string, needle: string, repl: string) returns (r: string)
    requires |needle| > 0
    ensures r == ReplaceRef(doc, needle, repl)
  {
    var cur := doc;
    var cursor: nat := 0;
    ghost var k: nat := 0;
    ScanStarts(doc, needle, repl);
    while true
      invariant ScanState(doc, needle, repl, cur, cursor, k)
      decreases |cur| - cursor
    {
      var found := FindFrom(cur, needle, cursor);
      if found.None? {
        ScanFinishes(doc, needle, repl, cur, cursor, k);
        break;
      }
      var start := found.value;
      var next := Insert(Delete(cur, start, start + |needle|), start, repl);
      ghost var nextK := k + (start - cursor) + |needle|;
      ScanAdvances(doc, needle, repl, cur, cursor, k, start, next, start + |repl|, nextK);
      cur, cursor, k := next, start + |repl|, nextK;
    }
    r := cur;
  }

  /**
   * The replace loop's invariant: after the cursor the current text is the
   * unscanned part `doc[k..]` of the original, and the text before the
   * cursor followed by the reference scan of `doc` from k is the reference
   * result on the whole original.
   */
  ghost predicate ScanState(doc: string, needle: string, repl: string,
                            cur: string, cursor: nat, k: nat)
  {
    && |needle| > 0
    && k <= |doc|
    && cursor <= |cur|
    && cur[cursor..] == doc[k..]
    && cur[..cursor] + RefFrom(doc, needle, repl, k) == ReplaceRef(doc, needle, repl)
  }

  /** Before the first search nothing has been scanned. */
  lemma ScanStarts(doc: string, needle: string, repl: string)
    requires |needle| > 0
    ensures ScanState(doc, needle, repl, doc, 0, 0)
  {
    assert doc[..0] + RefFrom(doc, needle, repl, 0) == RefFrom(doc, needle, repl, 0);
  }

  /** When no match is left after the cursor, the current text is the reference result. */
  lemma ScanFinishes(doc: string, needle: string, repl: string, cur: string, cursor: nat, k: nat)
    requires ScanState(doc, needle, repl, cur, cursor, k)
    requires FindFrom(cur, needle, cursor).None?
    ensures cur == ReplaceRef(doc, needle, repl)
  {
    FindFromShift(cur, cursor, doc, k, needle);
    RefNoMatch(doc, needle, repl, k);
    assert cur == cur[..cursor] + cur[cursor..];
  }

  /**
   * One iteration keeps the invariant: the match found after the cursor is
   * the reference scan's next match in the original text, and splicing the
   * replacement over it moves both scans past it.
   *
   * Here and in the two lemmas below, the texts and offsets of the next
   * iteration are parameters, each fixed by an equation in a `requires`,
   * rather than expressions computed in the contract. That way the loop and
   * the lemmas name them by the same terms, and the verifier does not have
   * to rediscover that two differently written offsets are equal.
   */
  lemma ScanAdvances(doc: string, needle: string, repl: string, cur: string, cursor: nat, k: nat,
                     start: nat, next: string, nextCursor: nat, nextK: nat)
    requires ScanState(doc, needle, repl, cur, cursor, k)
    requires FindFrom(cur, needle, cursor) == Some(start)
    requires start + |needle| <= |cur|
    requires next == Insert(Delete(cur, start, start + |needle|), start, repl)
    requires nextCursor == start + |repl| && nextK == k + (start - cursor) + |needle|
    ensures ScanState(doc, needle, repl, next, nextCursor, nextK)
  {
    var j := k + (start - cursor);
    NextMatchInOriginal(doc, needle, repl, cur, cursor, k, start, j, nextK);
    SpliceAdvances(doc, needle, repl, cur, cursor, k, start, j, next, nextCursor, nextK);
  }

  /**
   * The match the loop finds after its cursor is, in the original text,
   * the reference scan's next match from k.
   */
  lemma NextMatchInOriginal(doc: string, needle: string, repl: string,
                            cur: string, cursor: nat, k: nat, start: nat, j: nat, nextK: nat)
    requires |needle| > 0 && k <= |doc| && cursor <= |cur| && cur[cursor..] == doc[k..]
    requires FindFrom(cur, needle, cursor) == Some(start)
    requires j == k + (start - cursor) && nextK == j + |needle|
    ensures cursor <= start && nextK <= |doc|
    ensures RefFrom(doc, needle, repl, k) == doc[k..j] + repl + RefFrom(doc, needle, repl, nextK)
  {
    FindFromShiftFound(cur, cursor, doc, k, needle, start);
    RefAtMatch(doc, needle, repl, k, j);
  }

  /**
   * One iteration keeps the invariant, once the match has been located in
   * both the current and the original text: after the splice the cursor
   * stands just past the inserted replacement.
   */
  lemma SpliceAdvances(doc: string, needle: string, repl: string,
                       cur: string, cursor: nat, k: nat, start: nat, j: nat,
                       next: string, nextCursor: nat, nextK: nat)
    requires ScanState(doc, needle, repl, cur, cursor, k)
    requires cursor <= start && start + |needle| <= |cur|
    requires j == k + (start - cursor) && nextK == j + |needle| && nextK <= |doc|
    requires RefFrom(doc, needle, repl, k) == doc[k..j] + repl + RefFrom(doc, needle, repl, nextK)
    requires next == Insert(Delete(cur, start, start + |needle|), start, repl)
    requires nextCursor == start + |repl|
    ensures ScanState(doc, needle, repl, next, nextCursor, nextK)
  {
    SpliceKeepsSplit(doc, k, j, cur, cursor, start, |needle|, repl, next, nextCursor, nextK);
    Regroup(cur[..cursor], doc[k..j], repl, RefFrom(doc, needle, repl, nextK));
  }

  /**
   * The splice of one iteration, when the text after the cursor is
   * `doc[k..]` and the match sits at `start` there and at `j` in `doc`:
   * deleting `len` characters at `start` and inserting `repl` keeps
   * everything before the cursor, and leaves `doc`'s text after the
   * deleted span just past the inserted replacement.
   */
  lemma SpliceKeepsSplit(doc: string, k: nat, j: nat, cur: string, cursor: nat, start: nat,
                         len: nat, repl: string, t: string, nextCursor: nat, nextK: nat)
    requires cursor <= |cur| && k <= |doc| && cur[cursor..] == doc[k..]
    requires cursor <= start && k <= j && j - k == start - cursor
    requires nextK == j + len && nextK <= |doc|
    requires start + len <= |cur|
    requires t == Insert(Delete(cur, start, start + len), start, repl)
    requires nextCursor == start + |repl|
    ensures nextCursor <= |t|
    ensures t[..nextCursor] == cur[..cursor] + doc[k..j] + repl
    ensures t[nextCursor..] == doc[nextK..]
  {
    assert t[..start] == cur[..start];
    assert cur[..start] == cur[..cursor] + cur[cursor..start];
    assert cur[cursor..start] == cur[cursor..][..start - cursor];
    assert doc[k..j] == doc[k..][..j - k];
    assert t[..nextCursor] == t[..start] + t[start..nextCursor];
    assert t[nextCursor..] == cur[start + len..];
    assert cur[start + len..] == cur[cursor..][start + len - cursor..];
    assert doc[nextK..] == doc[k..][nextK - k..];
  }

  /** The worked example: "aaa" with "a" replaced by "aa" becomes "aaaaaa", not a longer text. */
  lemma ReplaceExampleDoublesEachA()
    ensures ReplaceRef("aaa", "a", "aa") == "aaaaaa"
  {
    var doc := "aaa";
    assert MatchAt(doc, "a", 0) && MatchAt(doc, "a", 1) && MatchAt(doc, "a", 2);
    assert RefFrom(doc, "a", "aa", 3) == "";
    assert RefFrom(doc, "a", "aa", 2) == "aa";
    assert RefFrom(doc, "a", "aa", 1) == "aaaa";
  }

  /** What the find command selects. */
  datatype FindOutcome =
    | NoQuery                        // the dialog was cancelled or left empty
    | NotFound                       // "no matches" is reported; selection untouched
    | Selected(start: nat, end: nat) // selection [start, end), insert mark at end

  /** The find command: the first occurrence of the target from the start of the text. */
  function FindText(doc: string, target: Option<string>): (r: FindOutcome)
    ensures r.NoQuery? <==> target.None? || target.value == ""
    ensures r.Selected? ==> target.Some? && r.end == r.start + |target.value|
    ensures r.Selected? ==> MatchAt(doc, target.value, r.start)
    ensures r.Selected? ==> forall j :: 0 <= j < r.start ==> !MatchAt(doc, target.value, j)
    ensures r.NotFound? ==> target.Some? && forall j :: !MatchAt(doc, target.value, j)
  {
    match target
    case None => NoQuery
    case Some(t) =>
      if t == "" then NoQuery
      else match FindFrom(doc, t, 0)
        case None => NotFound
        case Some(i) => Selected(i, i + |t|)
  }

  /** The find command's selection matches the text it selects. */
  lemma FindSelectsTarget(doc: string, t: string)
    requires FindText(doc, Some(t)).Selected?
    ensures var r := FindText(doc, Some(t)); r.end <= |doc| && doc[r.start..r.end] == t
  {
  }
}
