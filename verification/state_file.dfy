/**
 * The state file that carries the last seen page digest of every product URL
 * from one run to the next: one `url digest` line per product.
 */
module StateFile {
  import opened Wrappers
  import opened Text

  type Url = string
  type Digest = string

  /** The in-memory state: the last digest seen for each URL. */
  type Hashes = map<Url, Digest>

  /**
   * `line.split(" ", 1)` unpacked into `url, h`: the URL is what precedes the
   * first space and the digest everything after it. Empty lines and lines
   * without a space (the unpacking raises ValueError) give None: the line is skipped.
   */
  function ParseLine(line: string): (r: Option<(Url, Digest)>)
    ensures r.None? <==> ' ' !in line
    ensures r.Some? ==> ' ' !in r.value.0 && line == r.value.0 + " " + r.value.1
  {
    if line == "" then None
    else
      var k := IndexOf(line, ' ');
      if k == |line| then None
      else
        assert line == line[..k] + " " + line[k + 1..];
        Some((line[..k], line[k + 1..]))
  }

  /** A written line reads back as the entry it was written for. */
  lemma ParseFormattedLine(url: Url, h: Digest)
    requires ' ' !in url
    ensures ParseLine(FormatLine(url, h)) == Some((url, h))
  {
    var line := url + " " + h;
    assert line[|url|] == ' ';
    assert forall j :: 0 <= j < |url| ==> line[j] == url[j];
    assert IndexOf(line, ' ') == |url|;
    assert line[..|url|] == url;
    assert line[|url| + 1..] == h;
  }

  /** The line gives a digest for `url`. */
  predicate Defines(line: string, url: Url) {
    ParseLine(line).Some? && ParseLine(line).value.0 == url
  }

  /** The loading loop: every usable line stored in turn, so a later line for a URL overwrites an earlier one. */
  function ParseLines(lines: seq<string>): Hashes {
    if lines == [] then map[]
    else StoreLine(ParseLines(lines[..|lines| - 1]), lines[|lines| - 1])
  }

  /** One turn of the loading loop: `out[url] = h` when the line splits, nothing otherwise. */
  function StoreLine(out: Hashes, line: string): Hashes {
    match ParseLine(line)
    case None => out
    case Some((url, h)) => out[url := h]
  }

  /** Loading one more line is one more turn of the loop. */
  lemma ParseLinesAppend(lines: seq<string>, line: string)
    ensures ParseLines(lines + [line]) == StoreLine(ParseLines(lines), line)
  {
    assert (lines + [line])[..|lines|] == lines;
  }

  /** The state recovered from the file contents, the way `read_last_hashes` does it. */
  function Load(contents: string): Hashes {
    ParseLines(SplitLines(contents))
  }

  /** The `url digest` line written for one entry. */
  function FormatLine(url: Url, h: Digest): string {
    url + " " + h
  }

  /** `order` lists every key of `hashes` exactly once: the order a dictionary iterates in. */
  predicate Enumerates(order: seq<Url>, hashes: Hashes) {
    (forall i :: 0 <= i < |order| ==> order[i] in hashes)
    && (forall u :: u in hashes ==> u in order)
    && (forall i, j :: 0 <= i < j < |order| ==> order[i] != order[j])
  }

  /** An enumeration has as many elements as the state has entries. */
  lemma {:induction false} EnumerationCountsEntries(order: seq<Url>, hashes: Hashes)
    requires Enumerates(order, hashes)
    ensures |order| == |hashes|
    decreases |order|
  {
    if order == [] {
      assert hashes.Keys == {};
    } else {
      var n := |order| - 1;
      var url := order[n];
      var rest := map u | u in hashes && u != url :: hashes[u];
      assert rest.Keys == hashes.Keys - {url};
      forall u | u in rest
        ensures u in order[..n]
      {
        var i :| 0 <= i < |order| && order[i] == u;
        assert i != n;
      }
      assert Enumerates(order[..n], rest);
      EnumerationCountsEntries(order[..n], rest);
    }
  }

  /** The lines `save_hashes` writes, in iteration order. */
  function EntryLines(hashes: Hashes, order: seq<Url>): (lines: seq<string>)
    requires forall i :: 0 <= i < |order| ==> order[i] in hashes
    ensures |lines| == |order|
    ensures forall i :: 0 <= i < |order| ==> lines[i] == FormatLine(order[i], hashes[order[i]])
  {
    if order == [] then []
    else
      var n := |order| - 1;
      EntryLines(hashes, order[..n]) + [FormatLine(order[n], hashes[order[n]])]
  }

  /** The file contents `save_hashes` writes. */
  function Render(hashes: Hashes, order: seq<Url>): string
    requires forall i :: 0 <= i < |order| ==> order[i] in hashes
  {
    JoinLines(EntryLines(hashes, order))
  }

  /** A state that survives the file format: no URL holds a space or a newline, no digest a newline. */
  predicate WellFormed(hashes: Hashes) {
    forall u :: u in hashes ==> ' ' !in u && '\n' !in u && '\n' !in hashes[u]
  }

  /** Skipped lines: an empty line, or one without a space, leaves the state as it was. */
  lemma {:induction false} SkippedLineChangesNothing(before: seq<string>, line: string, after: seq<string>)
    requires ' ' !in line
    ensures ParseLines(before + [line] + after) == ParseLines(before + after)
    decreases |after|
  {
    if after == [] {
      assert before + [line] + after == before + [line];
      assert before + after == before;
      ParseLinesAppend(before, line);
    } else {
      var n := |after| - 1;
      SkippedLineChangesNothing(before, line, after[..n]);
      assert before + [line] + after == (before + [line] + after[..n]) + [after[n]];
      assert before + after == (before + after[..n]) + [after[n]];
      ParseLinesAppend(before + [line] + after[..n], after[n]);
      ParseLinesAppend(before + after[..n], after[n]);
    }
  }

  /** Some line of `lines` gives a digest for `url`. */
  ghost predicate SomeLineDefines(lines: seq<string>, url: Url) {
    exists i :: 0 <= i < |lines| && Defines(lines[i], url)
  }

  /** A URL is in the loaded state exactly when some line gives a digest for it. */
  lemma {:induction false} LoadedKeysComeFromLines(lines: seq<string>, url: Url)
    ensures url in ParseLines(lines) <==> SomeLineDefines(lines, url)
  {
    if lines != [] {
      var n := |lines| - 1;
      var init := lines[..n];
      LoadedKeysComeFromLines(init, url);
      assert lines == init + [lines[n]];
      ParseLinesAppend(init, lines[n]);
      assert url in ParseLines(lines) <==> url in ParseLines(init) || Defines(lines[n], url);
      if SomeLineDefines(init, url) {
        var i :| 0 <= i < n && Defines(init[i], url);
        assert lines[i] == init[i];
      }
      if SomeLineDefines(lines, url) && !Defines(lines[n], url) {
        var i :| 0 <= i < |lines| && Defines(lines[i], url);
        assert init[i] == lines[i];
      }
    }
  }

  /** The loaded digest of a URL comes from the last line that gives one for it. */
  lemma {:induction false} LastLineWins(lines: seq<string>, i: nat, url: Url, h: Digest)
    requires i < |lines| && ParseLine(lines[i]) == Some((url, h))
    requires forall j :: i < j < |lines| ==> !Defines(lines[j], url)
    ensures url in ParseLines(lines) && ParseLines(lines)[url] == h
  {
    var n := |lines| - 1;
    if i < n {
      forall j | i < j < n
        ensures !Defines(lines[..n][j], url)
      {
        assert lines[..n][j] == lines[j];
      }
      assert lines[..n][i] == lines[i];
      LastLineWins(lines[..n], i, url, h);
    }
  }

  /** Whatever the file holds, the loaded state is well formed. */
  lemma {:induction false} LoadedStateIsWellFormed(lines: seq<string>)
    requires forall k :: 0 <= k < |lines| ==> '\n' !in lines[k]
    ensures WellFormed(ParseLines(lines))
  {
    if lines != [] {
      var n := |lines| - 1;
      LoadedStateIsWellFormed(lines[..n]);
      assert forall k :: 0 <= k < n ==> lines[..n][k] == lines[k];
      match ParseLine(lines[n])
      case None =>
      case Some((url, h)) =>
        assert lines[n] == url + " " + h;
        assert forall c :: c in url ==> c in lines[n];
        assert forall c :: c in h ==> c in lines[n];
    }
  }

  /** The entries for the URLs in `order`. */
  function Entries(hashes: Hashes, order: seq<Url>): Hashes
    requires forall i :: 0 <= i < |order| ==> order[i] in hashes
  {
    map u | u in order :: hashes[u]
  }

  /** The loading loop over the written lines recovers the entries written. */
  lemma {:induction false} ParseEntryLines(hashes: Hashes, order: seq<Url>)
    requires WellFormed(hashes)
    requires forall i :: 0 <= i < |order| ==> order[i] in hashes
    ensures ParseLines(EntryLines(hashes, order)) == Entries(hashes, order)
  {
    if order != [] {
      var n := |order| - 1;
      var url := order[n];
      var init := order[..n];
      var line := FormatLine(url, hashes[url]);
      ParseEntryLines(hashes, init);
      assert EntryLines(hashes, order) == EntryLines(hashes, init) + [line];
      ParseLinesAppend(EntryLines(hashes, init), line);
      assert StoreLine(Entries(hashes, init), line) == Entries(hashes, init)[url := hashes[url]] by {
        assert ' ' !in url;
        ParseFormattedLine(url, hashes[url]);
      }
      assert Entries(hashes, order) == Entries(hashes, init)[url := hashes[url]] by {
        assert order == init + [url];
        EntriesAppend(hashes, init, url);
      }
    }
  }

  lemma EntriesAppend(hashes: Hashes, order: seq<Url>, url: Url)
    requires forall i :: 0 <= i < |order| ==> order[i] in hashes
    requires url in hashes
    ensures Entries(hashes, order + [url]) == Entries(hashes, order)[url := hashes[url]]
  {
    var before := Entries(hashes, order);
    var after := Entries(hashes, order + [url]);
    assert forall u :: u in order + [url] <==> u in order || u == url;
    assert after.Keys == before.Keys + {url};
  }

  /** No written line holds a newline. */
  lemma EntryLinesHaveNoNewline(hashes: Hashes, order: seq<Url>)
    requires WellFormed(hashes)
    requires forall i :: 0 <= i < |order| ==> order[i] in hashes
    ensures forall k :: 0 <= k < |order| ==> '\n' !in EntryLines(hashes, order)[k]
  {
    var lines := EntryLines(hashes, order);
    forall k | 0 <= k < |lines|
      ensures '\n' !in lines[k]
    {
      assert lines[k] == order[k] + " " + hashes[order[k]];
    }
  }

  /** The entries for an enumeration of all keys are the whole state. */
  lemma EntriesOfEnumeration(hashes: Hashes, order: seq<Url>)
    requires Enumerates(order, hashes)
    ensures Entries(hashes, order) == hashes
  {
    var e := Entries(hashes, order);
    assert e.Keys == hashes.Keys;
  }

  /** Round trip: loading what was saved gives back the state, in whatever order it was written. */
  lemma SaveThenLoad(hashes: Hashes, order: seq<Url>)
    requires WellFormed(hashes)
    requires Enumerates(order, hashes)
    ensures Load(Render(hashes, order)) == hashes
  {
    EntryLinesHaveNoNewline(hashes, order);
    SplitJoin(EntryLines(hashes, order));
    ParseEntryLines(hashes, order);
    EntriesOfEnumeration(hashes, order);
  }

  /**
   * `read_last_hashes`: the loop over the lines of the file, storing every
   * line that splits into a URL and a digest.
   */
  method ReadLastHashes(contents: string) returns (out: Hashes)
    ensures out == Load(contents)
    ensures WellFormed(out)
    ensures forall u :: u in out <==> SomeLineDefines(SplitLines(contents), u)
  {
    var lines := SplitLines(contents);
    out := map[];
    var i := 0;
    while i < |lines|
      invariant 0 <= i <= |lines|
      invariant out == ParseLines(lines[..i])
    {
      assert lines[..i + 1][..i] == lines[..i];
      var parsed := ParseLine(lines[i]);
      if parsed.Some? {
        out := out[parsed.value.0 := parsed.value.1];
      }
      i := i + 1;
    }
    assert lines[..i] == lines;
    LoadedStateIsWellFormed(lines);
    forall u | true
      ensures u in out <==> SomeLineDefines(lines, u)
    {
      LoadedKeysComeFromLines(lines, u);
    }
  }

  /** `save_hashes`: one `url digest` line per entry, in dictionary order. */
  method SaveHashes(hashes: Hashes, order: seq<Url>) returns (contents: string)
    requires Enumerates(order, hashes)
    ensures contents == Render(hashes, order)
    ensures WellFormed(hashes) ==> |SplitLines(contents)| == |order| == |hashes|
    ensures WellFormed(hashes) ==>
              forall i :: 0 <= i < |order| ==> ParseLine(SplitLines(contents)[i]) == Some((order[i], hashes[order[i]]))
    ensures WellFormed(hashes) ==> Load(contents) == hashes
  {
    contents := "";
    var i := 0;
    while i < |order|
      invariant 0 <= i <= |order|
      invariant contents == JoinLines(EntryLines(hashes, order[..i]))
    {
      var line := FormatLine(order[i], hashes[order[i]]);
      assert order[..i + 1][..i] == order[..i];
      JoinLinesAppend(EntryLines(hashes, order[..i]), line);
      contents := contents + line + "\n";
      i := i + 1;
    }
    assert order[..i] == order;
    if WellFormed(hashes) {
      SaveThenLoad(hashes, order);
      var lines := EntryLines(hashes, order);
      forall k | 0 <= k < |lines|
        ensures '\n' !in lines[k]
        ensures ParseLine(lines[k]) == Some((order[k], hashes[order[k]]))
      {
        assert lines[k] == order[k] + " " + hashes[order[k]];
        ParseFormattedLine(order[k], hashes[order[k]]);
      }
      SplitJoin(lines);
      EnumerationCountsEntries(order, hashes);
    }
  }
}
