/** The redirect merger of `useMergeRedirects`: two `title,url` blobs, an
    old site and a new site, are parsed into records; every old record is
    matched to the new record whose key is most similar to its own; the
    matches rated at least the threshold become `old,new` rows under the
    header `Old URL,New URL`.

    The similarity library is not part of the model: the rating of two
    strings is the parameter `rate`, and `BestMatch` picks a candidate of
    maximal rating. The exceptions a run can throw are `Err` results. */
module MergeRedirects {
  import opened Wrappers
  import opened JsString

  /** One parsed line: `title` is the text before the first comma, `url`
      the text between the first and the second comma, absent (JavaScript's
      `undefined`) when the line has no comma. */
  datatype Record = Record(title: string, url: Option<string>)

  /** A kept redirect, both URLs comma-escaped, base URLs not yet removed. */
  datatype Pair = Pair(oldUrl: string, newUrl: string)

  /** Why a run throws instead of producing a table. */
  datatype MergeError =
    | MissingUrl    // a string method was called on an absent `url`
    | NoCandidates  // a best match was asked for among no new records

  /** A similarity rating, as the similarity library reports it. */
  type Rating = r: real | 0.0 <= r <= 1.0

  /** The similarity function: a rating for every pair of strings. */
  type Rater = (string, string) -> Rating

  /** The best match of a string among candidates and its rating. */
  datatype Match = Match(target: string, rating: Rating)

  /** The arguments of `mutate` other than the two blobs; an absent
      threshold takes the default. */
  datatype Options = Options(
    oldBaseUrl: string,
    newBaseUrl: string,
    similarityThreshold: Option<real>,
    turboMatch: bool)

  const DefaultThreshold: real := 1.0

  const Header: string := "Old URL,New URL"

  /** The threshold a best match must reach: the given one, or by default 1. */
  function Threshold(opts: Options): (t: real)
    ensures opts.similarityThreshold.None? ==> t == DefaultThreshold
    ensures opts.similarityThreshold.Some? ==> t == opts.similarityThreshold.value
  {
    match opts.similarityThreshold
    case None => DefaultThreshold
    case Some(t) => t
  }

  // ---------------------------------------------------------------------
  // String helpers

  /** `url.replace(baseUrl, "")`: removes the first occurrence of `baseUrl`,
      wherever it is; a URL without it is returned unchanged. */
  function GetRelativeUrl(url: string, baseUrl: string): (r: string)
    ensures IndexOf(url, baseUrl).None? ==> r == url
    ensures IndexOf(url, baseUrl).Some? ==>
      var i := IndexOf(url, baseUrl).value;
      |r| == |url| - |baseUrl| && url == r[..i] + baseUrl + r[i..]
  {
    ReplaceFirst(url, baseUrl, "")
  }

  /** `url.replace(/,/g, "%2C")`: the comma percent-encoded as in section
      2.1 of RFC 3986, every other character kept. */
  function SanitiseCommas(url: string): (r: string)
    ensures ',' !in r
    ensures |r| == |url| + 2 * Count(url, ',')
  {
    ReplaceAll(url, ',', "%2C")
  }

  /** The slug normalisation of turbo keys:
      `url.replace(/-/g, " ").replace(/_/g, " ").replace("///g", " ")`.
      The last step replaces the first occurrence of the four-character
      text `///g`, not a pattern. */
  function SanitiseUrl(url: string): (r: string)
    ensures '-' !in r && '_' !in r
  {
    var spaced := ReplaceAll(ReplaceAll(url, '-', " "), '_', " ");
    ReplaceFirstChars(spaced, "///g", " ");
    ReplaceFirst(spaced, "///g", " ")
  }

  // ---------------------------------------------------------------------
  // csvToArray

  /** `const [title, url] = row.split(",")`. */
  function ParseRow(row: string): (r: Record)
    ensures ',' !in r.title
    ensures r.url.None? <==> ',' !in row
    ensures r.url.Some? ==> ',' !in r.url.value
  {
    var fields := Split(row, ',');
    CountZero(row, ',');
    Record(fields[0], if |fields| >= 2 then Some(fields[1]) else None)
  }

  /** The fields of a row: `title` is the longest comma-free prefix, the
      whole row when it has no comma; `url` is absent iff the row has no
      comma, and otherwise is the comma-free text after the first comma, up
      to the next comma or the end. */
  lemma ParseRowFields(row: string)
    ensures var r := ParseRow(row);
      ',' !in r.title && |r.title| <= |row| && row[..|r.title|] == r.title &&
      (r.url.None? <==> ',' !in row) &&
      (r.url.None? ==> r.title == row) &&
      (r.url.Some? ==>
        var k, u := |r.title|, r.url.value;
        ',' !in u && k + 1 + |u| <= |row| && row[k] == ',' && row[k + 1..k + 1 + |u|] == u &&
        (k + 1 + |u| == |row| || row[k + 1 + |u|] == ','))
  {
    var fields := Split(row, ',');
    JoinSplit(row, ',');
    CountZero(row, ',');
    if |fields| == 1 {
      assert row == fields[0];
    } else {
      assert row == fields[0] + "," + Join(fields[1..], ",");
      if |fields| >= 3 {
        assert Join(fields[1..], ",") == fields[1] + "," + Join(fields[2..], ",");
      }
    }
  }

  /** The lines of a blob after the first, as `raw.split("\n").slice(1)`. */
  function Rows(raw: string): (rows: seq<string>)
    ensures |rows| == Count(raw, '\n')
    ensures forall i :: 0 <= i < |rows| ==> '\n' !in rows[i]
  {
    Split(raw, '\n')[1..]
  }

  /** What `csvToArray(raw)` returns: one record per row, in order. */
  function Records(raw: string): (rs: seq<Record>)
    ensures |rs| == Count(raw, '\n')
  {
    var rows := Rows(raw);
    seq(|rows|, i requires 0 <= i < |rows| => ParseRow(rows[i]))
  }

  /** `csvToArray`: pushes the parsed record of every row after the first. */
  method CsvToArray(raw: string) returns (output: seq<Record>)
    ensures output == Records(raw)
  {
    var rows := Split(raw, '\n')[1..];
    output := [];
    for i := 0 to |rows|
      invariant |output| == i
      invariant forall k :: 0 <= k < i ==> output[k] == ParseRow(rows[k])
    {
      var fields := ParseRow(rows[i]);
      output := output + [fields];
    }
  }

  // ---------------------------------------------------------------------
  // Matching

  /** The string a record is compared by: its title, or in turbo mode its
      title followed by its slug-normalised URL (which throws without URL). */
  function Key(r: Record, turbo: bool): (k: Result<string, MergeError>)
    ensures k.Ok? <==> !turbo || r.url.Some?
    ensures k.Ok? ==> r.title <= k.value
    ensures k.Err? ==> k.error == MissingUrl
  {
    if !turbo then Ok(r.title)
    else
      match r.url
      case None => Err(MissingUrl)
      case Some(u) => Ok(r.title + SanitiseUrl(u))
  }

  /** `newUrls.map(key)`: the keys of all records, or the first failure. */
  function Keys(rs: seq<Record>, turbo: bool): (r: Result<seq<string>, MergeError>)
    ensures r.Ok? <==> forall i :: 0 <= i < |rs| ==> Key(rs[i], turbo).Ok?
    ensures r.Ok? ==> |r.value| == |rs|
    ensures r.Ok? ==> forall i :: 0 <= i < |rs| ==> Key(rs[i], turbo) == Ok(r.value[i])
    ensures r.Err? ==> r.error == MissingUrl
  {
    if rs == [] then Ok([])
    else
      var k :- Key(rs[0], turbo);
      var ks :- Keys(rs[1..], turbo);
      Ok([k] + ks)
  }

  /** `newUrls.map((newUrl) => newUrl.title)`. */
  function Titles(rs: seq<Record>): (ts: seq<string>)
    ensures Keys(rs, false) == Ok(ts)
  {
    var ts := seq(|rs|, i requires 0 <= i < |rs| => rs[i].title);
    assert forall i :: 0 <= i < |rs| ==> Key(rs[i], false) == Ok(ts[i]);
    assert Keys(rs, false).value == ts;
    ts
  }

  /** The index of the first candidate whose rating is maximal. */
  function BestIndex(rate: Rater, main: string, targets: seq<string>): (b: nat)
    requires |targets| > 0
    ensures b < |targets|
    ensures forall j :: 0 <= j < |targets| ==> rate(main, targets[j]) <= rate(main, targets[b])
    ensures forall j :: 0 <= j < b ==> rate(main, targets[j]) < rate(main, targets[b])
  {
    if |targets| == 1 then 0
    else
      var last := |targets| - 1;
      var b := BestIndex(rate, main, targets[..last]);
      assert forall j :: 0 <= j < last ==> targets[..last][j] == targets[j];
      if rate(main, targets[last]) > rate(main, targets[b]) then last else b
  }

  /** `findBestMatch(main, targets).bestMatch`: a candidate of maximal
      rating; among equally rated candidates, the first. */
  function BestMatch(rate: Rater, main: string, targets: seq<string>): (m: Match)
    requires |targets| > 0
    ensures m.target in targets && m.rating == rate(main, m.target)
    ensures forall t :: t in targets ==> rate(main, t) <= m.rating
  {
    var b := BestIndex(rate, main, targets);
    Match(targets[b], rate(main, targets[b]))
  }

  /** `find` over keys: the first position holding `target`. */
  function FindIndex(keys: seq<string>, target: string): (r: Option<nat>)
    ensures r.Some? ==> r.value < |keys| && keys[r.value] == target
    ensures r.Some? ==> forall j :: 0 <= j < r.value ==> keys[j] != target
    ensures r.None? <==> target !in keys
  {
    if keys == [] then None
    else if keys[0] == target then Some(0)
    else
      match FindIndex(keys[1..], target)
      case None => None
      case Some(i) => Some(i + 1)
  }

  /** The new record an old record is redirected to, if any. */
  function Lookup(oldUrl: Record, news: seq<Record>, opts: Options, rate: Rater): (r: Result<Option<Record>, MergeError>)
    ensures r == Err(NoCandidates) <==> |news| == 0
    ensures r.Ok? && r.value.Some? ==> r.value.value in news
  {
    if |news| == 0 then Err(NoCandidates)
    else
      var key :- Key(oldUrl, opts.turboMatch);
      var keys :- Keys(news, opts.turboMatch);
      var best := BestMatch(rate, key, keys);
      if best.rating >= Threshold(opts) then
        match FindIndex(keys, best.target)
        case None => Ok(None)
        case Some(i) => Ok(Some(news[i]))
      else Ok(None)
  }

  /** The redirect pair one old record contributes, if any. */
  function Redirect(oldUrl: Record, news: seq<Record>, opts: Options, rate: Rater): (r: Result<Option<Pair>, MergeError>)
    ensures r.Ok? ==> Lookup(oldUrl, news, opts, rate).Ok?
    ensures r.Ok? && r.value.Some? ==> ',' !in r.value.value.oldUrl && ',' !in r.value.value.newUrl
  {
    var found :- Lookup(oldUrl, news, opts, rate);
    match found
    case None => Ok(None)
    case Some(n) =>
      if oldUrl.url.None? || n.url.None? then Err(MissingUrl)
      else Ok(Some(Pair(SanitiseCommas(oldUrl.url.value), SanitiseCommas(n.url.value))))
  }

  /** The pairs of all old records, in old-set order, or the first failure. */
  function Pairs(olds: seq<Record>, news: seq<Record>, opts: Options, rate: Rater): (r: Result<seq<Pair>, MergeError>)
    ensures r.Ok? ==> |r.value| <= |olds|
    ensures r.Ok? ==> forall p :: p in r.value ==> ',' !in p.oldUrl && ',' !in p.newUrl
  {
    if olds == [] then Ok([])
    else
      var done :- Pairs(olds[..|olds| - 1], news, opts, rate);
      var p :- Redirect(olds[|olds| - 1], news, opts, rate);
      Ok(done + if p.Some? then [p.value] else [])
  }

  // ---------------------------------------------------------------------
  // Output

  /** An array of cells as JavaScript prints it inside `join`. */
  /** An array of cells as JavaScript prints it inside `join`: comma-free
      cells are read back by splitting at commas. */
  function Line(cells: seq<string>): (r: string)
    ensures |cells| > 0 && (forall i :: 0 <= i < |cells| ==> ',' !in cells[i]) ==> Split(r, ',') == cells
  {
    if |cells| > 0 && forall i :: 0 <= i < |cells| ==> ',' !in cells[i] then
      SplitJoin(cells, ',');
      Join(cells, ",")
    else
      Join(cells, ",")
  }

  /** One output row: both URLs with their base URL removed. A row of
      comma-free URLs holds one comma, between the two relative URLs; a row
      of newline-free URLs is one line. */
  function Row(p: Pair, oldBaseUrl: string, newBaseUrl: string): (r: string)
    ensures ',' !in p.oldUrl && ',' !in p.newUrl ==>
      Count(r, ',') == 1 &&
      Split(r, ',') == [GetRelativeUrl(p.oldUrl, oldBaseUrl), GetRelativeUrl(p.newUrl, newBaseUrl)]
    ensures '\n' !in p.oldUrl && '\n' !in p.newUrl ==> '\n' !in r
  {
    var a, b := GetRelativeUrl(p.oldUrl, oldBaseUrl), GetRelativeUrl(p.newUrl, newBaseUrl);
    ReplaceFirstChars(p.oldUrl, oldBaseUrl, "");
    ReplaceFirstChars(p.newUrl, newBaseUrl, "");
    assert [a, b][1..] == [b];
    assert Join([a, b], ",") == a + "," + Join([b], ",");
    Line([a, b])
  }

  /** The header row `["Old URL", "New URL"]`, printed as a line (`Line`
      joins with commas), is `Old URL,New URL`, on one line. */
  lemma HeaderLine()
    ensures Join(["Old URL", "New URL"], ",") == Header
    ensures '\n' !in Header
  {
    var cells := ["Old URL", "New URL"];
    assert cells[1..] == ["New URL"];
    assert Join(cells, ",") == cells[0] + "," + Join(cells[1..], ",");
  }

  /** The lines of the output table: the header row (`HeaderLine`), then
      one row per pair. */
  function Table(pairs: seq<Pair>, oldBaseUrl: string, newBaseUrl: string): (t: seq<string>)
    ensures |t| == 1 + |pairs| && t[0] == Header
    ensures forall i :: 0 <= i < |pairs| ==> t[i + 1] == Row(pairs[i], oldBaseUrl, newBaseUrl)
  {
    var rows := seq(|pairs|, i requires 0 <= i < |pairs| => Row(pairs[i], oldBaseUrl, newBaseUrl));
    var t := [Header] + rows;
    assert forall i :: 0 <= i < |pairs| ==> t[i + 1] == rows[i];
    t
  }

  /** No kept URL spans lines. */
  predicate NewlineFree(pairs: seq<Pair>)
  {
    forall p :: p in pairs ==> '\n' !in p.oldUrl && '\n' !in p.newUrl
  }

  /** The output text: the table's lines joined with newlines. It starts
      with the header, and when no URL spans lines, splitting it at
      newlines gives the table back. */
  function Render(pairs: seq<Pair>, oldBaseUrl: string, newBaseUrl: string): (r: string)
    ensures Header <= r
    ensures NewlineFree(pairs) ==> Split(r, '\n') == Table(pairs, oldBaseUrl, newBaseUrl)
  {
    var table := Table(pairs, oldBaseUrl, newBaseUrl);
    if NewlineFree(pairs) then
      TableOneLine(pairs, oldBaseUrl, newBaseUrl);
      SplitJoin(table, '\n');
      Join(table, "\n")
    else
      Join(table, "\n")
  }

  /** The table of newline-free pairs has no line spanning lines. */
  lemma TableOneLine(pairs: seq<Pair>, oldBaseUrl: string, newBaseUrl: string)
    requires NewlineFree(pairs)
    ensures forall i :: 0 <= i < |Table(pairs, oldBaseUrl, newBaseUrl)| ==> '\n' !in Table(pairs, oldBaseUrl, newBaseUrl)[i]
  {
    var table := Table(pairs, oldBaseUrl, newBaseUrl);
    HeaderLine();
    forall i | 0 <= i < |table| ensures '\n' !in table[i] {
      if i > 0 {
        var p := pairs[i - 1];
        assert p in pairs;
        assert table[i] == Row(p, oldBaseUrl, newBaseUrl);
      }
    }
  }

  /** What `mutate` sets its output to: the run fails exactly when the loop
      does, and otherwise the text starts with the header. */
  function Merge(oldUrlsCsv: string, newUrlsCsv: string, opts: Options, rate: Rater): (r: Result<string, MergeError>)
    ensures r.Ok? <==> Pairs(Records(oldUrlsCsv), Records(newUrlsCsv), opts, rate).Ok?
    ensures r.Err? ==> r.error == Pairs(Records(oldUrlsCsv), Records(newUrlsCsv), opts, rate).error
    ensures r.Ok? ==> Header <= r.value
  {
    var pairs :- Pairs(Records(oldUrlsCsv), Records(newUrlsCsv), opts, rate);
    Ok(Render(pairs, opts.oldBaseUrl, opts.newBaseUrl))
  }

  // ---------------------------------------------------------------------
  // mutate

  /** A failure of the loop ends the run with that failure. */
  lemma {:induction false} PairsErrPersists(olds: seq<Record>, i: nat, news: seq<Record>, opts: Options, rate: Rater)
    requires i <= |olds|
    requires Pairs(olds[..i], news, opts, rate).Err?
    ensures Pairs(olds, news, opts, rate) == Pairs(olds[..i], news, opts, rate)
    decreases |olds| - i
  {
    if i < |olds| {
      assert olds[..i + 1][..i] == olds[..i];
      PairsErrPersists(olds, i + 1, news, opts, rate);
    } else {
      assert olds[..i] == olds;
    }
  }

  lemma PairsNextErr(olds: seq<Record>, i: nat, news: seq<Record>, opts: Options, rate: Rater,
                     done: seq<Pair>, e: MergeError)
    requires i < |olds|
    requires Pairs(olds[..i], news, opts, rate) == Ok(done)
    requires Redirect(olds[i], news, opts, rate) == Err(e)
    ensures Pairs(olds, news, opts, rate) == Err(e)
  {
    assert olds[..i + 1][..i] == olds[..i];
    PairsErrPersists(olds, i + 1, news, opts, rate);
  }

  lemma PairsNext(olds: seq<Record>, i: nat, news: seq<Record>, opts: Options, rate: Rater,
                   done: seq<Pair>, p: Option<Pair>)
    requires i < |olds|
    requires Pairs(olds[..i], news, opts, rate) == Ok(done)
    requires Redirect(olds[i], news, opts, rate) == Ok(p)
    ensures p.None? ==> Pairs(olds[..i + 1], news, opts, rate) == Ok(done)
    ensures p.Some? ==> Pairs(olds[..i + 1], news, opts, rate) == Ok(done + [p.value])
  {
    TakeNext(olds, i);
    PairsSnoc(olds[..i], olds[i], news, opts, rate, done, p);
    if p.None? {
      assert done + [] == done;
    }
  }

  /** A prefix one element longer. */
  lemma TakeNext<T>(s: seq<T>, i: nat)
    requires i < |s|
    ensures s[..i + 1] == s[..i] + [s[i]]
  {
  }

  /** The loop's result after one more old record. */
  lemma PairsSnoc(init: seq<Record>, x: Record, news: seq<Record>, opts: Options, rate: Rater,
                  done: seq<Pair>, p: Option<Pair>)
    requires Pairs(init, news, opts, rate) == Ok(done)
    requires Redirect(x, news, opts, rate) == Ok(p)
    ensures Pairs(init + [x], news, opts, rate) == Ok(done + if p.Some? then [p.value] else [])
  {
    var s := init + [x];
    assert s[..|s| - 1] == init && s[|s| - 1] == x;
  }

  /** A completed loop completed every pass. */
  lemma PairsOkParts(olds: seq<Record>, news: seq<Record>, opts: Options, rate: Rater)
    requires |olds| > 0 && Pairs(olds, news, opts, rate).Ok?
    ensures Pairs(olds[..|olds| - 1], news, opts, rate).Ok?
    ensures Redirect(olds[|olds| - 1], news, opts, rate).Ok?
  {
  }

  /** One pass of `mutate`'s loop: the best match of `oldUrl`, the lookup
      of the matched new record and the pair it contributes. */
  method RedirectOne(oldUrl: Record, newUrls: seq<Record>, opts: Options, rate: Rater)
    returns (pair: Result<Option<Pair>, MergeError>)
    ensures pair == Redirect(oldUrl, newUrls, opts, rate)
  {
    var threshold := Threshold(opts);
    var newUrl: Option<Record> := None;

    if |newUrls| == 0 {
      return Err(NoCandidates);
    }
    var titles := Titles(newUrls);
    var bestMatch := BestMatch(rate, oldUrl.title, titles);

    if opts.turboMatch {
      if oldUrl.url.None? {
        return Err(MissingUrl);
      }
      var keys := Keys(newUrls, true);
      if keys.Err? {
        return Err(keys.error);
      }
      bestMatch := BestMatch(rate, oldUrl.title + SanitiseUrl(oldUrl.url.value), keys.value);
      if bestMatch.rating >= threshold {
        var found := FindIndex(keys.value, bestMatch.target);
        if found.Some? {
          newUrl := Some(newUrls[found.value]);
        }
      }
    } else {
      assert forall k :: 0 <= k < |newUrls| ==> Key(newUrls[k], false).Ok?;
      assert Keys(newUrls, false).value == titles;
      if bestMatch.rating >= threshold {
        var found := FindIndex(titles, bestMatch.target);
        if found.Some? {
          newUrl := Some(newUrls[found.value]);
        }
      }
    }
    assert Lookup(oldUrl, newUrls, opts, rate) == Ok(newUrl);

    if newUrl.None? {
      return Ok(None);
    }
    if oldUrl.url.None? || newUrl.value.url.None? {
      return Err(MissingUrl);
    }
    pair := Ok(Some(Pair(SanitiseCommas(oldUrl.url.value), SanitiseCommas(newUrl.value.url.value))));
  }

  /** `mutate`: the matching loop over the old records, then the table. */
  method Mutate(oldUrlsCsv: string, newUrlsCsv: string, opts: Options, rate: Rater)
    returns (output: Result<string, MergeError>)
    ensures output == Merge(oldUrlsCsv, newUrlsCsv, opts, rate)
  {
    var redirectedUrls: seq<Pair> := [];
    var oldUrls := CsvToArray(oldUrlsCsv);
    var newUrls := CsvToArray(newUrlsCsv);

    var i := 0;
    assert oldUrls[..0] == [];
    while i < |oldUrls|
      invariant i <= |oldUrls|
      invariant Pairs(oldUrls[..i], newUrls, opts, rate) == Ok(redirectedUrls)
    {
      var newUrl := RedirectOne(oldUrls[i], newUrls, opts, rate);
      if newUrl.Err? {
        PairsNextErr(oldUrls, i, newUrls, opts, rate, redirectedUrls, newUrl.error);
        return Err(newUrl.error);
      }
      PairsNext(oldUrls, i, newUrls, opts, rate, redirectedUrls, newUrl.value);
      if newUrl.value.Some? {
        redirectedUrls := redirectedUrls + [newUrl.value.value];
      }
      i := i + 1;
    }

    assert oldUrls[..i] == oldUrls;
    assert Pairs(Records(oldUrlsCsv), Records(newUrlsCsv), opts, rate) == Ok(redirectedUrls);
    output := Ok(Render(redirectedUrls, opts.oldBaseUrl, opts.newBaseUrl));
  }
}
