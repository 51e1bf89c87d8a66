/**
 * Turning recognised text into word pairs (src/components/OCRScanner.tsx):
 * split into lines, drop blank lines, split each line on `-`, `:` or `=`
 * and keep the trimmed first two pieces; confirming adds every pair to the
 * store. The text recognition itself is not modelled.
 */
module Ocr {
  import opened Types
  import Text
  import Store
  import Seqs

  /** The characters of the pattern `/[-:=]/`. */
  const Separators: set<char> := {'-', ':', '='}

  /**
   * The lines of the text that are not blank after trimming, in order. A line
   * trims to empty exactly when it is all white space (`Text.TrimEmptyIff`),
   * and the filter tests that directly.
   */
  function NonBlank(lines: seq<string>): (r: seq<string>)
    ensures |r| <= |lines|
    ensures forall i :: 0 <= i < |r| ==> r[i] in lines && !Text.IsBlank(r[i])
  {
    if lines == [] then []
    else if !Text.IsBlank(lines[0]) then [lines[0]] + NonBlank(lines[1..])
    else NonBlank(lines[1..])
  }

  /** A line survives the filter exactly when it occurs in the input and is not blank. */
  lemma {:induction false} NonBlankMembership(lines: seq<string>, l: string)
    ensures l in NonBlank(lines) <==> l in lines && Text.Trim(l) != []
  {
    Text.TrimEmptyIff(l);
    if lines != [] {
      NonBlankMembership(lines[1..], l);
      assert l in lines <==> l == lines[0] || l in lines[1..];
    }
  }

  /** The filter keeps the lines in their original order. */
  lemma {:induction false} NonBlankIsSubsequence(lines: seq<string>)
    ensures Seqs.IsSubsequence(NonBlank(lines), lines)
  {
    if lines != [] {
      NonBlankIsSubsequence(lines[1..]);
      var rest := NonBlank(lines[1..]);
      if !Text.IsBlank(lines[0]) {
        assert NonBlank(lines) == [lines[0]] + rest;
        assert ([lines[0]] + rest)[1..] == rest;
      } else {
        assert NonBlank(lines) == rest;
        assert lines == [lines[0]] + lines[1..];
        Seqs.SubsequenceWeaken(rest, lines[1..], lines[0]);
      }
    }
  }

  /** The filter distributes over joining lists, so repeated non-blank lines are all kept. */
  lemma {:induction false} NonBlankAppend(a: seq<string>, b: seq<string>)
    ensures NonBlank(a + b) == NonBlank(a) + NonBlank(b)
  {
    if a == [] {
      assert a + b == b;
    } else if !Text.IsBlank(a[0]) {
      calc {
        NonBlank(a + b);
        { assert (a + b)[0] == a[0] && (a + b)[1..] == a[1..] + b; }
        [a[0]] + NonBlank(a[1..] + b);
        { NonBlankAppend(a[1..], b); }
        [a[0]] + (NonBlank(a[1..]) + NonBlank(b));
        ([a[0]] + NonBlank(a[1..])) + NonBlank(b);
        NonBlank(a) + NonBlank(b);
      }
    } else {
      calc {
        NonBlank(a + b);
        { assert (a + b)[0] == a[0] && (a + b)[1..] == a[1..] + b; }
        NonBlank(a[1..] + b);
        { NonBlankAppend(a[1..], b); }
        NonBlank(a[1..]) + NonBlank(b);
        NonBlank(a) + NonBlank(b);
      }
    }
  }

  /** One line: a pair when it holds a separator, nothing otherwise. */
  function ParseLine(line: string): (r: Option<Entry>)
    ensures line == [] ==> r == None
    ensures r.Some? ==> Trimmed(r.value.term) && Trimmed(r.value.definition)
  {
    var parts := Text.SplitBy(line, Separators);
    if |parts| >= 2 then Some(Entry(Text.Trim(parts[0]), Text.Trim(parts[1]))) else None
  }

  /** Neither end of `s` is whitespace. */
  predicate Trimmed(s: string)
  {
    s != [] ==> !Text.IsWhitespace(s[0]) && !Text.IsWhitespace(s[|s| - 1])
  }

  /** The pairs of a list of lines, in line order. */
  function ParseLines(lines: seq<string>): (r: seq<Entry>)
    ensures |r| <= |lines|
  {
    if lines == [] then []
    else
      match ParseLine(lines[0])
      case Some(e) => [e] + ParseLines(lines[1..])
      case None => ParseLines(lines[1..])
  }

  /** The parsing block of `processImage`: recognised text to pairs. */
  function ParseText(text: string): (r: seq<Entry>)
    ensures |r| <= |NonBlank(Text.SplitBy(text, {'\n'}))|
  {
    ParseLines(NonBlank(Text.SplitBy(text, {'\n'})))
  }

  /** A line yields a pair exactly when it contains one of the separators. */
  lemma ParseLineSomeIff(line: string)
    ensures ParseLine(line).Some? <==> exists i :: 0 <= i < |line| && line[i] in Separators
  {
    Text.SplitHasSeveralPieces(line, Separators);
  }

  /**
   * The term is the trimmed text before the first separator, the definition
   * the trimmed text between the first separator and the next one (or the
   * end of the line); whatever follows a second separator is dropped.
   */
  lemma ParseLineFields(line: string)
    requires Text.FirstIn(line, Separators) < |line|
    ensures var k := Text.FirstIn(line, Separators);
      var rest := line[k + 1..];
      var m := Text.FirstIn(rest, Separators);
      ParseLine(line) == Some(Entry(Text.Trim(line[..k]), Text.Trim(rest[..m])))
  {
    var k := Text.FirstIn(line, Separators);
    var rest := line[k + 1..];
    var m := Text.FirstIn(rest, Separators);
    var parts := Text.SplitBy(line, Separators);
    Text.SplitAtFirst(line, Separators);
    assert parts == [line[..k]] + Text.SplitBy(rest, Separators);
    Text.SplitAtFirst(rest, Separators);
    assert Text.SplitBy(rest, Separators)[0] == rest[..m];
    assert |parts| >= 2 && parts[0] == line[..k] && parts[1] == rest[..m];
  }

  /** Empty terms are not rejected: a line that starts with a separator gives an empty term. */
  lemma LeadingSeparatorGivesEmptyTerm(line: string)
    requires |line| > 0 && line[0] in Separators
    ensures ParseLine(line).Some? && ParseLine(line).value.term == ""
  {
    Text.SplitAtFirst(line, Separators);
    assert line[..0] == [];
  }

  /** A blank line holds no separator, so it yields nothing. */
  lemma BlankLineGivesNothing(line: string)
    requires Text.Trim(line) == []
    ensures ParseLine(line) == None
  {
    Text.TrimEmptyIff(line);
    forall k | 0 <= k < |line|
      ensures line[k] !in Separators
    {
      assert Text.IsWhitespace(line[k]);
    }
    assert Text.FirstIn(line, Separators) == |line|;
    Text.SplitAtFirst(line, Separators);
  }

  /** Dropping blank lines first does not change the pairs. */
  lemma {:induction false} BlankFilterIsTransparent(lines: seq<string>)
    ensures ParseLines(NonBlank(lines)) == ParseLines(lines)
  {
    if lines != [] {
      BlankFilterIsTransparent(lines[1..]);
      if Text.IsBlank(lines[0]) {
        Text.TrimEmptyIff(lines[0]);
        BlankLineGivesNothing(lines[0]);
      } else {
        assert ([lines[0]] + NonBlank(lines[1..]))[1..] == NonBlank(lines[1..]);
      }
    }
  }

  /** Pairs follow line order: parsing distributes over joining lists of lines. */
  lemma {:induction false} ParseLinesAppend(a: seq<string>, b: seq<string>)
    ensures ParseLines(a + b) == ParseLines(a) + ParseLines(b)
  {
    if a != [] {
      assert (a + b)[0] == a[0] && (a + b)[1..] == a[1..] + b;
      ParseLinesAppend(a[1..], b);
    } else {
      assert a + b == b;
    }
  }

  /** Parsing a single line gives its pair, or nothing. */
  lemma ParseOneLine(line: string)
    ensures ParseLines([line]) == if ParseLine(line).Some? then [ParseLine(line).value] else []
  {
    assert [line][1..] == [];
  }

  /** The words a confirmation adds: one new word per pair, in order. */
  function ConfirmedWords(scanned: seq<Entry>, ids: seq<string>, now: int): (r: seq<Word>)
    requires |ids| == |scanned|
    ensures |r| == |scanned|
    ensures forall i :: 0 <= i < |scanned| ==>
      (r[i].id == ids[i] && r[i].term == scanned[i].term && r[i].definition == scanned[i].definition &&
       r[i].level == 0 && r[i].nextReviewAt == now && r[i].addedAt == now && r[i].lastReviewedAt == 0 &&
       r[i].wrongCount == 0 && r[i].audioUrl == None)
  {
    seq(|scanned|, i requires 0 <= i < |scanned| => NewWord(ids[i], scanned[i].term, scanned[i].definition, None, now))
  }

  /** `handleConfirm`: add every scanned pair through `addWord`, in order. */
  method HandleConfirm(store: Store.WordStore, scanned: seq<Entry>, ids: seq<string>, now: int)
    requires store.Valid() && |ids| == |scanned|
    modifies store
    ensures store.Valid()
    ensures store.words == old(store.words) + ConfirmedWords(scanned, ids, now)
    ensures store.dailyStreak == old(store.dailyStreak) && store.lastStudyDate == old(store.lastStudyDate)
    ensures store.totalPoints == old(store.totalPoints)
  {
    for i := 0 to |scanned|
      invariant store.Valid()
      invariant store.words == old(store.words) + ConfirmedWords(scanned[..i], ids[..i], now)
      invariant store.dailyStreak == old(store.dailyStreak) && store.lastStudyDate == old(store.lastStudyDate)
      invariant store.totalPoints == old(store.totalPoints)
    {
      store.AddWord(scanned[i].term, scanned[i].definition, None, ids[i], now);
      assert ConfirmedWords(scanned[..i + 1], ids[..i + 1], now)
          == ConfirmedWords(scanned[..i], ids[..i], now) + [NewWord(ids[i], scanned[i].term, scanned[i].definition, None, now)];
    }
    assert scanned[..|scanned|] == scanned && ids[..|ids|] == ids;
  }
}
