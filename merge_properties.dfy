/** What the redirect merger promises: the parser's line and field rules,
    the escaping and stripping helpers, the lookup rule, threshold
    monotonicity and the shape of the output table. */
module MergeProperties {
  import opened Wrappers
  import opened JsString
  import opened MergeRedirects

  // ---------------------------------------------------------------------
  // csvToArray

  /** A record none of whose fields holds a newline. */
  predicate OneLine(r: Record)
  {
    '\n' !in r.title && (r.url.Some? ==> '\n' !in r.url.value)
  }

  /** A character absent from a row is absent from both of its fields. */
  lemma ParseRowChars(row: string, c: char)
    requires c !in row
    ensures c !in ParseRow(row).title
    ensures ParseRow(row).url.Some? ==> c !in ParseRow(row).url.value
  {
    var r := ParseRow(row);
    ParseRowFields(row);
    if r.url.Some? {
      var k, u := |r.title|, r.url.value;
      assert forall m :: 0 <= m < |u| ==> u[m] == row[k + 1 + m];
    }
  }

  /** `csvToArray` drops the first line and yields one record per remaining
      line, in order, empty lines included, none of them spanning lines. */
  lemma RecordsLines(raw: string)
    ensures |Records(raw)| == Count(raw, '\n')
    ensures forall i :: 0 <= i < |Records(raw)| ==> Records(raw)[i] == ParseRow(Split(raw, '\n')[i + 1])
    ensures forall i :: 0 <= i < |Records(raw)| ==> OneLine(Records(raw)[i])
  {
    var rows := Rows(raw);
    forall i | 0 <= i < |rows| ensures OneLine(Records(raw)[i]) {
      ParseRowChars(rows[i], '\n');
    }
  }

  /** An empty line gives a record with an empty title and no URL. */
  lemma ParseEmptyRow()
    ensures ParseRow("") == Record("", None)
  {
  }

  // ---------------------------------------------------------------------
  // sanitiseCommas, getRelativeUrl, sanitiseUrl

  /** `sanitiseCommas` is `url.split(",").join("%2C")`. */
  lemma SanitiseCommasIsSplitJoin(url: string)
    ensures SanitiseCommas(url) == Join(Split(url, ','), "%2C")
  {
    ReplaceAllIsSplitJoin(url, ',', "%2C");
  }

  /** Every character is escaped on its own: a comma becomes `%2C`, any
      other character is kept, and the order is preserved. */
  lemma SanitiseCommasPointwise(a: string, c: char, b: string)
    ensures SanitiseCommas(a + [c] + b) ==
      SanitiseCommas(a) + (if c == ',' then "%2C" else [c]) + SanitiseCommas(b)
  {
    ReplaceAllConcat(a + [c], b, ',', "%2C");
    ReplaceAllConcat(a, [c], ',', "%2C");
    var escaped := if c == ',' then "%2C" else [c];
    assert [c][1..] == [];
    assert ReplaceAll([c], ',', "%2C") == escaped + ReplaceAll([], ',', "%2C");
    assert escaped + ReplaceAll([], ',', "%2C") == escaped;
  }

  /** A URL without commas is left as it is. */
  lemma SanitiseCommasNoComma(url: string)
    requires ',' !in url
    ensures SanitiseCommas(url) == url
  {
    ReplaceAllAbsent(url, ',', "%2C");
  }

  /** Escaping introduces no newline. */
  lemma SanitiseCommasOneLine(url: string)
    requires '\n' !in url
    ensures '\n' !in SanitiseCommas(url)
  {
    assert '\n' !in "%2C";
  }

  /** Stripping a base URL only removes characters. */
  lemma GetRelativeUrlChars(url: string, baseUrl: string)
    ensures forall d :: d in GetRelativeUrl(url, baseUrl) ==> d in url
  {
    ReplaceFirstChars(url, baseUrl, "");
  }

  /** An empty base URL, or one that does not occur, leaves the URL as it is. */
  lemma GetRelativeUrlUnchanged(url: string, baseUrl: string)
    requires baseUrl == [] || forall j: nat :: !OccursAt(url, baseUrl, j)
    ensures GetRelativeUrl(url, baseUrl) == url
  {
    if baseUrl == [] {
      assert OccursAt(url, baseUrl, 0);
      assert url[..0] + "" + url[0..] == url;
    }
  }

  /** A base URL at the start of the URL is removed as a prefix. */
  lemma GetRelativeUrlPrefix(url: string, baseUrl: string)
    requires |baseUrl| <= |url| && url[..|baseUrl|] == baseUrl
    ensures GetRelativeUrl(url, baseUrl) == url[|baseUrl|..]
  {
    assert OccursAt(url, baseUrl, 0);
    assert url[..0] + "" + url[|baseUrl|..] == url[|baseUrl|..];
  }

  /** `sanitiseUrl` is one pass turning every `-` and `_` into a space,
      followed by the replacement of the first literal `///g`, which the
      first pass neither creates nor moves. */
  lemma SanitiseUrlSpec(url: string)
    ensures var spaced := seq(|url|, k requires 0 <= k < |url| => if url[k] == '-' || url[k] == '_' then ' ' else url[k]);
      SanitiseUrl(url) == ReplaceFirst(spaced, "///g", " ") &&
      IndexOf(spaced, "///g") == IndexOf(url, "///g")
  {
    var spaced := seq(|url|, k requires 0 <= k < |url| => if url[k] == '-' || url[k] == '_' then ' ' else url[k]);
    var dashed := ReplaceAll(url, '-', " ");
    ReplaceAllAt(url, '-', ' ');
    ReplaceAllAt(dashed, '_', ' ');
    var both := ReplaceAll(dashed, '_', " ");
    assert |both| == |spaced|;
    assert forall k :: 0 <= k < |url| ==> both[k] == spaced[k];
    assert both == spaced;
    forall j: nat ensures OccursAt(spaced, "///g", j) <==> OccursAt(url, "///g", j) {
      OccursAtPointwise(spaced, url, "///g", j);
    }
  }

  // ---------------------------------------------------------------------
  // Matching

  /** The lookup rule. Once the keys exist, an old record is redirected iff
      its best match is rated at least the threshold, and then to the first
      new record whose key is the best target. The best target is one of
      the keys (`BestMatch`), so such a first record exists and the lookup
      never comes back empty once the threshold is met. */
  lemma LookupRule(oldUrl: Record, news: seq<Record>, opts: Options, rate: Rater, i: nat)
    requires |news| > 0
    requires Key(oldUrl, opts.turboMatch).Ok? && Keys(news, opts.turboMatch).Ok?
    requires var keys := Keys(news, opts.turboMatch).value;
      var best := BestMatch(rate, Key(oldUrl, opts.turboMatch).value, keys);
      i < |news| && keys[i] == best.target && forall j :: 0 <= j < i ==> keys[j] != best.target
    ensures var best := BestMatch(rate, Key(oldUrl, opts.turboMatch).value, Keys(news, opts.turboMatch).value);
      Lookup(oldUrl, news, opts, rate) == if best.rating >= Threshold(opts) then Ok(Some(news[i])) else Ok(None)
    ensures BestMatch(rate, Key(oldUrl, opts.turboMatch).value, Keys(news, opts.turboMatch).value).rating >= Threshold(opts) ==>
      Lookup(oldUrl, news, opts, rate).Ok? && Lookup(oldUrl, news, opts, rate).value.Some?
  {
    var keys := Keys(news, opts.turboMatch).value;
    var best := BestMatch(rate, Key(oldUrl, opts.turboMatch).value, keys);
    assert FindIndex(keys, best.target) == Some(i);
    assert Lookup(oldUrl, news, opts, rate) ==
      if best.rating >= Threshold(opts) then Ok(Some(news[FindIndex(keys, best.target).value])) else Ok(None);
  }

  /** When the lookup fails: with no new records, or in turbo mode when a
      record without URL is keyed. Title matching never lacks a key. */
  lemma LookupErrors(oldUrl: Record, news: seq<Record>, opts: Options, rate: Rater)
    ensures Lookup(oldUrl, news, opts, rate) == Err(NoCandidates) <==> |news| == 0
    ensures Lookup(oldUrl, news, opts, rate) == Err(MissingUrl) <==>
      |news| > 0 && opts.turboMatch && (oldUrl.url.None? || exists i :: 0 <= i < |news| && news[i].url.None?)
  {
    if |news| > 0 && opts.turboMatch && oldUrl.url.Some? {
      if exists i :: 0 <= i < |news| && news[i].url.None? {
        var i :| 0 <= i < |news| && news[i].url.None?;
        assert Key(news[i], true).Err?;
      } else {
        assert forall i :: 0 <= i < |news| ==> Key(news[i], true).Ok?;
      }
    }
  }

  /** The new record an old record is redirected to is one of the new records. */
  lemma LookupIn(oldUrl: Record, news: seq<Record>, opts: Options, rate: Rater)
    requires Lookup(oldUrl, news, opts, rate).Ok? && Lookup(oldUrl, news, opts, rate).value.Some?
    ensures Lookup(oldUrl, news, opts, rate).value.value in news
  {
  }

  /** An old record every candidate of which rates below the threshold is
      dropped without failing the run. */
  lemma NoMatchDrop(oldUrl: Record, news: seq<Record>, opts: Options, rate: Rater)
    requires |news| > 0
    requires Key(oldUrl, opts.turboMatch).Ok? && Keys(news, opts.turboMatch).Ok?
    requires forall k :: k in Keys(news, opts.turboMatch).value ==>
      rate(Key(oldUrl, opts.turboMatch).value, k) < Threshold(opts)
    ensures Redirect(oldUrl, news, opts, rate) == Ok(None)
  {
    var keys := Keys(news, opts.turboMatch).value;
    var best := BestMatch(rate, Key(oldUrl, opts.turboMatch).value, keys);
    assert best.rating < Threshold(opts);
  }

  /** Title matching finds a redirect target for an old record whose title
      is also a new title, when a string rates 1 against itself and the
      threshold is at most 1. */
  lemma IdentityMatch(oldUrl: Record, news: seq<Record>, opts: Options, rate: Rater)
    requires !opts.turboMatch && Threshold(opts) <= 1.0
    requires rate(oldUrl.title, oldUrl.title) == 1.0
    requires exists i :: 0 <= i < |news| && news[i].title == oldUrl.title
    ensures Lookup(oldUrl, news, opts, rate).Ok? && Lookup(oldUrl, news, opts, rate).value.Some?
  {
    var i :| 0 <= i < |news| && news[i].title == oldUrl.title;
    var keys := Keys(news, false).value;
    assert keys[i] == oldUrl.title;
    var best := BestMatch(rate, oldUrl.title, keys);
    assert rate(oldUrl.title, keys[i]) <= best.rating;
  }

  /** Raising the threshold only drops redirects: what is still redirected
      is redirected to the same pair, and no new failure appears. */
  lemma RedirectMonotone(oldUrl: Record, news: seq<Record>, opts1: Options, opts2: Options, rate: Rater)
    requires opts2 == opts1.(similarityThreshold := opts2.similarityThreshold)
    requires Threshold(opts1) <= Threshold(opts2)
    requires Redirect(oldUrl, news, opts1, rate).Ok?
    ensures Redirect(oldUrl, news, opts2, rate).Ok?
    ensures Redirect(oldUrl, news, opts2, rate).value.Some? ==>
      Redirect(oldUrl, news, opts2, rate) == Redirect(oldUrl, news, opts1, rate)
  {
    assert opts1.turboMatch == opts2.turboMatch;
  }

  // ---------------------------------------------------------------------
  // The matching loop

  /** Every old record is handled on its own, in old-set order. */
  lemma {:induction false} PairsAppend(a: seq<Record>, b: seq<Record>, news: seq<Record>, opts: Options, rate: Rater)
    requires Pairs(a, news, opts, rate).Ok? && Pairs(b, news, opts, rate).Ok?
    ensures Pairs(a + b, news, opts, rate) == Ok(Pairs(a, news, opts, rate).value + Pairs(b, news, opts, rate).value)
    decreases |b|
  {
    if b == [] {
      assert a + b == a;
      assert Pairs(a, news, opts, rate).value + [] == Pairs(a, news, opts, rate).value;
    } else {
      var b' := b[..|b| - 1];
      var x := b[|b| - 1];
      Snoc(a, b);
      PairsOkParts(b, news, opts, rate);
      PairsAppend(a, b', news, opts, rate);
      var pa, pb' := Pairs(a, news, opts, rate).value, Pairs(b', news, opts, rate).value;
      var p := Redirect(x, news, opts, rate).value;
      var extra := if p.Some? then [p.value] else [];
      PairsSnoc(b', x, news, opts, rate, pb', p);
      PairsSnoc(a + b', x, news, opts, rate, pa + pb', p);
      SeqAssociative(pa, pb', extra);
    }
  }

  lemma SeqAssociative<T>(a: seq<T>, b: seq<T>, c: seq<T>)
    ensures (a + b) + c == a + (b + c)
  {
  }

  /** Splitting the last element off a concatenation. */
  lemma Snoc<T>(a: seq<T>, b: seq<T>)
    requires |b| > 0
    ensures b == b[..|b| - 1] + [b[|b| - 1]]
    ensures a + b == (a + b[..|b| - 1]) + [b[|b| - 1]]
  {
  }

  /** A failure of every old record fails the run with that error. */
  lemma {:induction false} PairsAllFail(olds: seq<Record>, news: seq<Record>, opts: Options, rate: Rater, e: MergeError)
    requires |olds| > 0
    requires forall i :: 0 <= i < |olds| ==> Redirect(olds[i], news, opts, rate) == Err(e)
    ensures Pairs(olds, news, opts, rate) == Err(e)
  {
    var init := olds[..|olds| - 1];
    if |init| > 0 {
      assert forall i :: 0 <= i < |init| ==> init[i] == olds[i];
      PairsAllFail(init, news, opts, rate, e);
    }
  }

  /** At most one pair per old record. */
  lemma {:induction false} PairsBound(olds: seq<Record>, news: seq<Record>, opts: Options, rate: Rater)
    requires Pairs(olds, news, opts, rate).Ok?
    ensures |Pairs(olds, news, opts, rate).value| <= |olds|
  {
    if olds != [] {
      PairsBound(olds[..|olds| - 1], news, opts, rate);
    }
  }

  /** Threshold monotonicity of the loop: a higher threshold keeps no more
      pairs, and fails no run that a lower one completes. */
  lemma {:induction false} PairsMonotone(olds: seq<Record>, news: seq<Record>, opts1: Options, opts2: Options, rate: Rater)
    requires opts2 == opts1.(similarityThreshold := opts2.similarityThreshold)
    requires Threshold(opts1) <= Threshold(opts2)
    requires Pairs(olds, news, opts1, rate).Ok?
    ensures Pairs(olds, news, opts2, rate).Ok?
    ensures |Pairs(olds, news, opts2, rate).value| <= |Pairs(olds, news, opts1, rate).value|
  {
    if olds != [] {
      var init := olds[..|olds| - 1];
      PairsMonotone(init, news, opts1, opts2, rate);
      RedirectMonotone(olds[|olds| - 1], news, opts1, opts2, rate);
    }
  }

  /** Every kept URL is comma-free and, for one-line records, newline-free. */
  lemma {:induction false} PairsClean(olds: seq<Record>, news: seq<Record>, opts: Options, rate: Rater)
    requires forall i :: 0 <= i < |olds| ==> OneLine(olds[i])
    requires forall i :: 0 <= i < |news| ==> OneLine(news[i])
    requires Pairs(olds, news, opts, rate).Ok?
    ensures forall p :: p in Pairs(olds, news, opts, rate).value ==>
      ',' !in p.oldUrl && ',' !in p.newUrl && '\n' !in p.oldUrl && '\n' !in p.newUrl
  {
    if olds != [] {
      var init := olds[..|olds| - 1];
      var last := olds[|olds| - 1];
      assert forall i :: 0 <= i < |init| ==> init[i] == olds[i];
      PairsClean(init, news, opts, rate);
      var r := Redirect(last, news, opts, rate);
      if r.value.Some? {
        LookupIn(last, news, opts, rate);
        var n := Lookup(last, news, opts, rate).value.value;
        var i :| 0 <= i < |news| && news[i] == n;
        assert OneLine(news[i]);
        SanitiseCommasOneLine(last.url.value);
        SanitiseCommasOneLine(n.url.value);
      }
    }
  }

  // ---------------------------------------------------------------------
  // The output table

  /** The kept pairs of a run: comma-free and newline-free URLs. */
  lemma MergePairsClean(oldUrlsCsv: string, newUrlsCsv: string, opts: Options, rate: Rater)
    requires Pairs(Records(oldUrlsCsv), Records(newUrlsCsv), opts, rate).Ok?
    ensures forall p :: p in Pairs(Records(oldUrlsCsv), Records(newUrlsCsv), opts, rate).value ==>
      ',' !in p.oldUrl && ',' !in p.newUrl && '\n' !in p.oldUrl && '\n' !in p.newUrl
  {
    RecordsLines(oldUrlsCsv);
    RecordsLines(newUrlsCsv);
    PairsClean(Records(oldUrlsCsv), Records(newUrlsCsv), opts, rate);
  }

  /** The output of a run: the header line, then one line per kept pair,
      each holding exactly one comma between the two relative URLs. */
  lemma MergeShape(oldUrlsCsv: string, newUrlsCsv: string, opts: Options, rate: Rater)
    requires Merge(oldUrlsCsv, newUrlsCsv, opts, rate).Ok?
    ensures var pairs := Pairs(Records(oldUrlsCsv), Records(newUrlsCsv), opts, rate);
      var lines := Split(Merge(oldUrlsCsv, newUrlsCsv, opts, rate).value, '\n');
      pairs.Ok? && |lines| == 1 + |pairs.value| && lines[0] == Header &&
      forall i :: 1 <= i < |lines| ==>
        Count(lines[i], ',') == 1 &&
        Split(lines[i], ',') == [GetRelativeUrl(pairs.value[i - 1].oldUrl, opts.oldBaseUrl),
                                 GetRelativeUrl(pairs.value[i - 1].newUrl, opts.newBaseUrl)]
  {
    var pairs := Pairs(Records(oldUrlsCsv), Records(newUrlsCsv), opts, rate).value;
    MergePairsClean(oldUrlsCsv, newUrlsCsv, opts, rate);
    RenderShape(pairs, opts.oldBaseUrl, opts.newBaseUrl);
  }

  /** The rendered table of clean pairs: the header line, then one line per
      pair holding the two relative URLs around exactly one comma. */
  lemma RenderShape(pairs: seq<Pair>, oldBaseUrl: string, newBaseUrl: string)
    requires forall p :: p in pairs ==>
      ',' !in p.oldUrl && ',' !in p.newUrl && '\n' !in p.oldUrl && '\n' !in p.newUrl
    ensures var lines := Split(Render(pairs, oldBaseUrl, newBaseUrl), '\n');
      |lines| == 1 + |pairs| && lines[0] == Header &&
      forall i :: 1 <= i < |lines| ==>
        Count(lines[i], ',') == 1 &&
        Split(lines[i], ',') == [GetRelativeUrl(pairs[i - 1].oldUrl, oldBaseUrl),
                                 GetRelativeUrl(pairs[i - 1].newUrl, newBaseUrl)]
  {
    assert NewlineFree(pairs);
    var lines := Split(Render(pairs, oldBaseUrl, newBaseUrl), '\n');
    forall i | 1 <= i < |lines|
      ensures Count(lines[i], ',') == 1
      ensures Split(lines[i], ',') ==
        [GetRelativeUrl(pairs[i - 1].oldUrl, oldBaseUrl), GetRelativeUrl(pairs[i - 1].newUrl, newBaseUrl)]
    {
      TableRow(pairs, oldBaseUrl, newBaseUrl, i);
    }
  }

  lemma TableRow(pairs: seq<Pair>, oldBaseUrl: string, newBaseUrl: string, i: nat)
    requires forall p :: p in pairs ==> ',' !in p.oldUrl && ',' !in p.newUrl
    requires 1 <= i <= |pairs|
    ensures Count(Table(pairs, oldBaseUrl, newBaseUrl)[i], ',') == 1
    ensures Split(Table(pairs, oldBaseUrl, newBaseUrl)[i], ',') ==
      [GetRelativeUrl(pairs[i - 1].oldUrl, oldBaseUrl), GetRelativeUrl(pairs[i - 1].newUrl, newBaseUrl)]
  {
    var p := pairs[i - 1];
    assert Table(pairs, oldBaseUrl, newBaseUrl)[i] == Row(p, oldBaseUrl, newBaseUrl);
    assert p in pairs;
  }

  /** An old blob with no data line gives just the header. */
  lemma MergeNoOldRecords(oldUrlsCsv: string, newUrlsCsv: string, opts: Options, rate: Rater)
    requires '\n' !in oldUrlsCsv
    ensures Merge(oldUrlsCsv, newUrlsCsv, opts, rate) == Ok(Header)
  {
    CountZero(oldUrlsCsv, '\n');
    HeaderLine();
  }

  /** Raising the threshold never adds output lines. */
  lemma MergeThresholdMonotone(oldUrlsCsv: string, newUrlsCsv: string, opts1: Options, opts2: Options, rate: Rater)
    requires opts2 == opts1.(similarityThreshold := opts2.similarityThreshold)
    requires Threshold(opts1) <= Threshold(opts2)
    requires Merge(oldUrlsCsv, newUrlsCsv, opts1, rate).Ok?
    ensures Merge(oldUrlsCsv, newUrlsCsv, opts2, rate).Ok?
    ensures |Split(Merge(oldUrlsCsv, newUrlsCsv, opts2, rate).value, '\n')| <=
            |Split(Merge(oldUrlsCsv, newUrlsCsv, opts1, rate).value, '\n')|
  {
    PairsMonotone(Records(oldUrlsCsv), Records(newUrlsCsv), opts1, opts2, rate);
    MergeShape(oldUrlsCsv, newUrlsCsv, opts1, rate);
    MergeShape(oldUrlsCsv, newUrlsCsv, opts2, rate);
  }

  /** In turbo mode a new blob ending in a newline fails every run that has
      an old record: its last, empty line has no URL to normalise. */
  lemma TurboTrailingNewline(oldUrlsCsv: string, newUrlsCsv: string, opts: Options, rate: Rater)
    requires opts.turboMatch
    requires '\n' in oldUrlsCsv
    requires |newUrlsCsv| > 0 && newUrlsCsv[|newUrlsCsv| - 1] == '\n'
    ensures Merge(oldUrlsCsv, newUrlsCsv, opts, rate) == Err(MissingUrl)
  {
    var olds, news := Records(oldUrlsCsv), Records(newUrlsCsv);
    CountZero(oldUrlsCsv, '\n');
    var front := newUrlsCsv[..|newUrlsCsv| - 1];
    assert newUrlsCsv == front + ['\n'];
    SplitEndingInSeparator(front, '\n');
    assert news[|news| - 1] == ParseRow("");
    forall i | 0 <= i < |olds| ensures Redirect(olds[i], news, opts, rate) == Err(MissingUrl) {
      LookupErrors(olds[i], news, opts, rate);
    }
    PairsAllFail(olds, news, opts, rate, MissingUrl);
  }

  // ---------------------------------------------------------------------
  // A whole run

  /** A blob of a header and one `title,url` line holds one record. */
  lemma OneRecord(header: string, title: string, url: string)
    requires '\n' !in header && '\n' !in title && ',' !in title && '\n' !in url && ',' !in url
    ensures Records(header + "\n" + title + "," + url) == [Record(title, Some(url))]
  {
    var row := title + "," + url;
    ParseOneRow(title, url);
    OneRow(header, row);
    assert header + "\n" + title + "," + url == header + "\n" + row;
  }

  lemma ParseOneRow(title: string, url: string)
    requires '\n' !in title && ',' !in title && '\n' !in url && ',' !in url
    ensures ParseRow(title + "," + url) == Record(title, Some(url))
    ensures '\n' !in title + "," + url
  {
    var row := title + "," + url;
    assert row == Join([title, url], ",");
    SplitJoin([title, url], ',');
  }

  lemma OneRow(header: string, row: string)
    requires '\n' !in header && '\n' !in row
    ensures Records(header + "\n" + row) == [ParseRow(row)]
  {
    var raw := header + "\n" + row;
    assert raw == Join([header, row], "\n");
    SplitJoin([header, row], '\n');
    assert Rows(raw) == [row];
  }

  /** Title matching of one old against one new record with the same title. */
  lemma SameTitlePair(title: string, oldUrl: string, newUrl: string, opts: Options, rate: Rater)
    requires !opts.turboMatch && ',' !in oldUrl && ',' !in newUrl
    requires rate(title, title) >= Threshold(opts)
    ensures Pairs([Record(title, Some(oldUrl))], [Record(title, Some(newUrl))], opts, rate) == Ok([Pair(oldUrl, newUrl)])
  {
    var oldRec, newRec := Record(title, Some(oldUrl)), Record(title, Some(newUrl));
    assert [newRec][1..] == [];
    assert Keys([], false) == Ok([]);
    assert [title] + [] == [title];
    assert Keys([newRec], false) == Ok([title]);
    assert Lookup(oldRec, [newRec], opts, rate) == Ok(Some(newRec));
    SanitiseCommasNoComma(oldUrl);
    SanitiseCommasNoComma(newUrl);
    assert Redirect(oldRec, [newRec], opts, rate) == Ok(Some(Pair(oldUrl, newUrl)));
    assert [oldRec][..0] == [];
    assert [] + [Pair(oldUrl, newUrl)] == [Pair(oldUrl, newUrl)];
  }

  /** One pair under bases that prefix its URLs renders as one row of paths. */
  lemma OneRowTable(oldBaseUrl: string, oldPath: string, newBaseUrl: string, newPath: string)
    ensures Render([Pair(oldBaseUrl + oldPath, newBaseUrl + newPath)], oldBaseUrl, newBaseUrl)
         == Header + "\n" + oldPath + "," + newPath
  {
    var oldUrl, newUrl := oldBaseUrl + oldPath, newBaseUrl + newPath;
    assert oldUrl[..|oldBaseUrl|] == oldBaseUrl && oldUrl[|oldBaseUrl|..] == oldPath;
    assert newUrl[..|newBaseUrl|] == newBaseUrl && newUrl[|newBaseUrl|..] == newPath;
    GetRelativeUrlPrefix(oldUrl, oldBaseUrl);
    GetRelativeUrlPrefix(newUrl, newBaseUrl);
    var row := oldPath + "," + newPath;
    assert [oldPath, newPath][1..] == [newPath];
    assert Join([oldPath, newPath], ",") == oldPath + "," + Join([newPath], ",");
    assert Row(Pair(oldUrl, newUrl), oldBaseUrl, newBaseUrl) == row;
    HeaderLine();
    var table := Table([Pair(oldUrl, newUrl)], oldBaseUrl, newBaseUrl);
    assert table == [Header, row];
    assert table[1..] == [row];
    assert Join(table, "\n") == table[0] + "\n" + Join([row], "\n");
    SeqAssociative(Header + "\n", oldPath + ",", newPath);
    SeqAssociative(Header + "\n", oldPath, ",");
  }

  /** A single page that keeps its title while moving from `oldBaseUrl` to
      `newBaseUrl` is matched by title whenever the title's rating against
      itself reaches the threshold, and yields one row of relative URLs. */
  lemma SameTitleRun(oldHeader: string, newHeader: string, title: string,
                     oldBaseUrl: string, oldPath: string, newBaseUrl: string, newPath: string,
                     threshold: real, rate: Rater)
    requires '\n' !in oldHeader && '\n' !in newHeader
    requires '\n' !in title && ',' !in title
    requires '\n' !in oldBaseUrl + oldPath && ',' !in oldBaseUrl + oldPath
    requires '\n' !in newBaseUrl + newPath && ',' !in newBaseUrl + newPath
    requires rate(title, title) >= threshold
    ensures Merge(oldHeader + "\n" + title + "," + (oldBaseUrl + oldPath),
                  newHeader + "\n" + title + "," + (newBaseUrl + newPath),
                  Options(oldBaseUrl, newBaseUrl, Some(threshold), false), rate)
         == Ok(Header + "\n" + oldPath + "," + newPath)
  {
    var opts := Options(oldBaseUrl, newBaseUrl, Some(threshold), false);
    OneRecord(oldHeader, title, oldBaseUrl + oldPath);
    OneRecord(newHeader, title, newBaseUrl + newPath);
    SameTitlePair(title, oldBaseUrl + oldPath, newBaseUrl + newPath, opts, rate);
    OneRowTable(oldBaseUrl, oldPath, newBaseUrl, newPath);
  }
}
