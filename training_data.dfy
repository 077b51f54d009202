/** `TrainingDataPreparer`: turns SEC filings, FRED descriptions and policy
    uncertainty descriptions into labelled training examples, appending
    them to `training_data`, and de-duplicates the examples by text. The
    file listings and the file contents are inputs: directory globbing and
    reading are not modelled beyond whether a read succeeded. */
module TrainingData {
  import opened Common
  import opened JsonValue
  import opened TextCleaning

  // ---------------------------------------------------------------------
  // extract_sentiment_from_sec_filing

  const POSITIVE_KEYWORDS: seq<string> := [
    "increase", "growth", "improve", "positive", "strong", "profit", "revenue",
    "success", "gain", "up", "higher", "better", "excellent", "outperform"
  ]

  const NEGATIVE_KEYWORDS: seq<string> := [
    "decrease", "decline", "loss", "negative", "weak", "risk", "challenge",
    "down", "lower", "worse", "poor", "underperform", "volatility"
  ]

  datatype Label = Positive | Negative | Neutral

  /** The label with positive and negative exchanged. */
  function Mirror(l: Label): Label {
    match l
    case Positive => Negative
    case Negative => Positive
    case Neutral => Neutral
  }

  /** `sum(1 for word in words if word in text)`: how many of the keywords
      occur in `text`, each counted once however often it occurs. */
  function CountPresent(words: seq<string>, text: string): (n: nat)
    ensures n <= |words|
    ensures n == 0 <==> forall k :: 0 <= k < |words| ==> !Contains(text, words[k])
    ensures n == |words| <==> forall k :: 0 <= k < |words| ==> Contains(text, words[k])
  {
    if words == [] then 0
    else
      var rest := CountPresent(words[1..], text);
      assert forall k :: 1 <= k < |words| ==> words[k] == words[1..][k - 1];
      (if Contains(text, words[0]) then 1 else 0) + rest
  }

  /** A single keyword counts 1 when it occurs and 0 otherwise. */
  lemma CountPresentOne(word: string, text: string)
    ensures CountPresent([word], text) == if Contains(text, word) then 1 else 0
  {
    assert [word][1..] == [];
  }

  /** The count over two keyword lists is the sum of their counts; with
      `CountPresentOne` this makes the count the number of keywords that
      occur. */
  lemma {:induction false} CountPresentAppend(a: seq<string>, b: seq<string>, text: string)
    ensures CountPresent(a + b, text) == CountPresent(a, text) + CountPresent(b, text)
  {
    if a == [] {
      assert a + b == b;
    } else {
      assert (a + b)[0] == a[0];
      assert (a + b)[1..] == a[1..] + b;
      CountPresentAppend(a[1..], b, text);
    }
  }

  /** Whether keyword `i` occurs in `text`. */
  function PresentAt(words: seq<string>, text: string): nat -> bool {
    (i: nat) => i < |words| && Contains(text, words[i])
  }

  /** The count is the number of keyword positions whose keyword occurs. */
  lemma CountPresentIndices(words: seq<string>, text: string)
    ensures CountPresent(words, text) == |Where(0, |words|, PresentAt(words, text))|
  {
    CountPresentFrom(words, text, 0);
    assert words[0..] == words;
  }

  lemma {:induction false} CountPresentFrom(words: seq<string>, text: string, lo: nat)
    requires lo <= |words|
    ensures CountPresent(words[lo..], text) == |Where(lo, |words|, PresentAt(words, text))|
    decreases |words| - lo
  {
    if lo < |words| {
      CountPresentFrom(words, text, lo + 1);
      assert words[lo..][0] == words[lo];
      assert words[lo..][1..] == words[lo + 1..];
    }
  }

  /** The label rule of `extract_sentiment_from_sec_filing`: annual reports
      and unknown forms are neutral; a quarterly report needs a lead of more
      than two keywords, a current report any lead. */
  function LabelFor(formType: string, positive: nat, negative: nat): (l: Label)
    ensures formType == "10-Q" ==> (l == Positive <==> positive > negative + 2) &&
                                   (l == Negative <==> negative > positive + 2)
    ensures formType == "8-K" ==> (l == Positive <==> positive > negative) &&
                                  (l == Negative <==> negative > positive)
    ensures formType != "10-Q" && formType != "8-K" ==> l == Neutral
  {
    if formType == "10-K" then Neutral
    else if formType == "10-Q" then
      if positive > negative + 2 then Positive
      else if negative > positive + 2 then Negative
      else Neutral
    else if formType == "8-K" then
      if positive > negative then Positive
      else if negative > positive then Negative
      else Neutral
    else Neutral
  }

  /** Exchanging the two counts exchanges the two polar labels. */
  lemma LabelForSymmetric(formType: string, positive: nat, negative: nat)
    ensures LabelFor(formType, negative, positive) == Mirror(LabelFor(formType, positive, negative))
  {
  }

  /** `extract_sentiment_from_sec_filing(content, form_type)`: the cleaned
      text and its label. The cleaned text is ASCII, so lower-casing it
      ASCII-only is exact. */
  function ExtractSentiment(content: string, formType: string): (r: (string, Label))
  {
    var cleaned := CleanText(content);
    var lowered := Lower(cleaned);
    (cleaned, LabelFor(formType, CountPresent(POSITIVE_KEYWORDS, lowered), CountPresent(NEGATIVE_KEYWORDS, lowered)))
  }

  /** The text is the cleaned content; the label follows the keyword
      counts of its lower-cased form, by the rule of its form type, and
      annual reports and unrecognised forms are neutral whatever they say. */
  lemma ExtractSentimentSpec(content: string, formType: string)
    ensures var r := ExtractSentiment(content, formType);
            var positive := CountPresent(POSITIVE_KEYWORDS, Lower(r.0));
            var negative := CountPresent(NEGATIVE_KEYWORDS, Lower(r.0));
            && r.0 == CleanText(content)
            && (formType == "10-Q" ==>
                  (r.1 == Positive <==> positive > negative + 2) && (r.1 == Negative <==> negative > positive + 2))
            && (formType == "8-K" ==>
                  (r.1 == Positive <==> positive > negative) && (r.1 == Negative <==> negative > positive))
            && (formType != "10-Q" && formType != "8-K" ==> r.1 == Neutral)
  {
  }

  // ---------------------------------------------------------------------
  // File names

  /** The index of the last `c` in `s`, or -1 (`str.rfind`). */
  function LastIndexOf(s: string, c: char): (i: int)
    ensures -1 <= i < |s|
    ensures i >= 0 ==> s[i] == c
    ensures forall j :: i < j < |s| ==> s[j] != c
  {
    if s == [] then -1
    else if s[|s| - 1] == c then |s| - 1
    else LastIndexOf(s[..|s| - 1], c)
  }

  /** `PurePath(name).stem`: the name without its last suffix, where a
      suffix needs a dot that is neither the first nor the last character. */
  function Stem(name: string): (r: string)
    ensures |r| <= |name| && r == name[..|r|]
  {
    var i := LastIndexOf(name, '.');
    if 0 < i < |name| - 1 then name[..i] else name
  }

  /** The stem of a `.txt` file name with a non-empty base is that base. */
  lemma StemOfTxt(base: string)
    requires base != []
    ensures Stem(base + ".txt") == base
  {
    var name := base + ".txt";
    assert name[|base|] == '.';
    assert name[|base| + 1..] == "txt";
    assert forall j :: |base| < j < |name| ==> name[j] != '.';
    var i := LastIndexOf(name, '.');
    assert i >= |base|;
    assert i <= |base|;
  }

  datatype FilingName = FilingName(accessionNumber: string, formType: string, filingDate: string)

  /** `filename.split('_')` and the test `len(parts) >= 3`: the first three
      parts are the accession number, the form and the date. */
  function ParseStem(stem: string): (r: Option<FilingName>)
    ensures r.Some? <==> |Split(stem, '_')| >= 3
    ensures r.Some? ==> r.value == FilingName(Split(stem, '_')[0], Split(stem, '_')[1], Split(stem, '_')[2])
  {
    var parts := Split(stem, '_');
    if |parts| >= 3 then Some(FilingName(parts[0], parts[1], parts[2])) else None
  }

  /** Splitting at the first separator of `a + "_" + b`. */
  lemma SplitAtFirst(a: string, b: string)
    requires '_' !in a
    ensures Split(a + "_" + b, '_') == [a] + Split(b, '_')
  {
    var s := a + "_" + b;
    assert s == a + ['_'] + b;
    IndexOfAfter(a, '_', b);
    assert s[..|a|] == a;
    assert s[|a| + 1..] == b;
  }

  /** Parsing recovers the three fields a stem was joined from. */
  lemma ParseJoined(accession: string, form: string, date: string)
    requires '_' !in accession && '_' !in form && '_' !in date
    ensures ParseStem(accession + "_" + form + "_" + date) == Some(FilingName(accession, form, date))
  {
    assert accession + "_" + form + "_" + date == accession + "_" + (form + "_" + date);
    SplitAtFirst(accession, form + "_" + date);
    SplitAtFirst(form, date);
    assert Split(date, '_') == [date];
    assert Split(accession + "_" + form + "_" + date, '_') == [accession, form, date];
  }

  // ---------------------------------------------------------------------
  // Training examples

  datatype Source = SecFiling | FredData | PolicyUncertainty

  datatype Metadata =
    | SecMetadata(accessionNumber: string, formType: string, filingDate: string, filename: string)
    | EconomicIndicator(descriptionLength: nat)
    | PolicyMetadata(filename: string)

  datatype Example = Example(text: string, sentiment: Label, source: Source, metadata: Metadata)

  const MIN_SEC_LENGTH: nat := 100
  const MIN_DESCRIPTION_LENGTH: nat := 50

  /** A `*.txt` file of the filings directory; `content` is `None` where
      reading it raised. */
  datatype SecFile = SecFile(name: string, content: Option<string>)

  /** The example one filing yields, if any. */
  function SecExample(f: SecFile): (r: Option<Example>)
  {
    match ParseStem(Stem(f.name))
    case None => None
    case Some(parsed) =>
      match f.content
      case None => None
      case Some(content) =>
        var (cleaned, sentiment) := ExtractSentiment(content, parsed.formType);
        if cleaned != "" && |cleaned| > MIN_SEC_LENGTH then
          Some(Example(cleaned, sentiment, SecFiling,
                       SecMetadata(parsed.accessionNumber, parsed.formType, parsed.filingDate, Stem(f.name))))
        else None
  }

  /** A filing yields an example exactly when its stem splits into at least
      three fields, it could be read, and its cleaned text has more than 100
      characters; the example carries the cleaned text, the label of its
      form and the fields of its name. */
  lemma SecExampleSpec(f: SecFile)
    ensures SecExample(f).Some? <==>
              ParseStem(Stem(f.name)).Some? && f.content.Some? && |CleanText(f.content.value)| > MIN_SEC_LENGTH
    ensures SecExample(f).Some? ==>
              var parsed := ParseStem(Stem(f.name)).value;
              var e := SecExample(f).value;
              && e.source == SecFiling
              && (e.text, e.sentiment) == ExtractSentiment(f.content.value, parsed.formType)
              && e.metadata == SecMetadata(parsed.accessionNumber, parsed.formType, parsed.filingDate, Stem(f.name))
  {
  }

  /** The examples of the filings, in listing order. */
  function SecExamples(files: seq<SecFile>): (r: seq<Example>)
    ensures |r| <= |files|
    ensures forall k :: 0 <= k < |r| ==> r[k].source == SecFiling && |r[k].text| > MIN_SEC_LENGTH
  {
    CollectAll(files, SecExample, (e: Example) => e.source == SecFiling && |e.text| > MIN_SEC_LENGTH);
    Collect(files, SecExample)
  }

  /** `str.find(sep)` for a non-empty separator: the first occurrence, or
      `None` when there is none. */
  function Find(s: string, sep: string): (r: Option<nat>)
    requires sep != []
    ensures r.Some? ==> OccursAt(sep, s, r.value) && forall j :: 0 <= j < r.value ==> !OccursAt(sep, s, j)
    ensures r.None? <==> forall j :: !OccursAt(sep, s, j)
    decreases |s|
  {
    if |s| < |sep| then None
    else if s[..|sep|] == sep then
      assert s[0..0 + |sep|] == s[..|sep|];
      Some(0)
    else
      var r := Find(s[1..], sep);
      FindStep(s, sep, r);
      match r
      case None => None
      case Some(i) => Some(i + 1)
  }

  /** The first occurrence in `s[1..]` is, one further on, the first in `s`
      when `s` does not start with the separator. */
  lemma FindStep(s: string, sep: string, r: Option<nat>)
    requires sep != [] && |s| >= |sep| && s[..|sep|] != sep
    requires r.Some? ==> OccursAt(sep, s[1..], r.value) && forall j :: 0 <= j < r.value ==> !OccursAt(sep, s[1..], j)
    requires r.None? <==> forall j :: !OccursAt(sep, s[1..], j)
    ensures r.Some? ==> OccursAt(sep, s, r.value + 1) && forall j :: 0 <= j < r.value + 1 ==> !OccursAt(sep, s, j)
    ensures r.None? <==> forall j :: !OccursAt(sep, s, j)
  {
    assert !OccursAt(sep, s, 0) by {
      assert s[0..0 + |sep|] == s[..|sep|];
    }
    forall j | 1 <= j ensures OccursAt(sep, s, j) <==> OccursAt(sep, s[1..], j - 1) {
      if j + |sep| <= |s| {
        assert s[1..][j - 1..j - 1 + |sep|] == s[j..j + |sep|];
      }
    }
  }

  /** Before the first occurrence there is none. */
  lemma NoneBefore(s: string, sep: string, i: nat)
    requires sep != [] && i <= |s|
    requires forall j :: 0 <= j < i ==> !OccursAt(sep, s, j)
    ensures forall j :: !OccursAt(sep, s[..i], j)
  {
    forall j | OccursAt(sep, s[..i], j) ensures false {
      assert s[..i][j..j + |sep|] == s[j..j + |sep|];
      assert OccursAt(sep, s, j);
    }
  }

  /** `s.split(sep)` for a non-empty separator: no piece holds the
      separator. */
  function SplitOn(s: string, sep: string): (parts: seq<string>)
    requires sep != []
    ensures |parts| >= 1
    ensures forall k :: 0 <= k < |parts| ==> forall j :: !OccursAt(sep, parts[k], j)
    decreases |s|
  {
    match Find(s, sep)
    case None => [s]
    case Some(i) =>
      NoneBefore(s, sep, i);
      [s[..i]] + SplitOn(s[i + |sep|..], sep)
  }

  /** `sep.join(parts)` */
  function JoinOn(parts: seq<string>, sep: string): string
    requires |parts| >= 1
  {
    if |parts| == 1 then parts[0] else parts[0] + sep + JoinOn(parts[1..], sep)
  }

  /** Joining a piece in front of at least one more. */
  lemma JoinOnCons(head: string, tail: seq<string>, sep: string)
    requires |tail| >= 1
    ensures JoinOn([head] + tail, sep) == head + sep + JoinOn(tail, sep)
  {
    assert ([head] + tail)[1..] == tail;
  }

  /** A text is what comes before an occurrence, the separator, and what
      comes after it. */
  lemma AroundOccurrence(s: string, sep: string, i: nat)
    requires OccursAt(sep, s, i)
    ensures s == s[..i] + sep + s[i + |sep|..]
  {
    assert s == s[..i] + s[i..i + |sep|] + s[i + |sep|..];
  }

  /** Joining the pieces of a split gives back the text. */
  lemma {:induction false} JoinSplitOn(s: string, sep: string)
    requires sep != []
    ensures JoinOn(SplitOn(s, sep), sep) == s
    decreases |s|
  {
    var found := Find(s, sep);
    if found.Some? {
      var i := found.value;
      var rest := s[i + |sep|..];
      JoinSplitOn(rest, sep);
      JoinOnCons(s[..i], SplitOn(rest, sep), sep);
      AroundOccurrence(s, sep, i);
    }
  }

  /** Each cut is at the leftmost separator: from the start of every piece
      but the last, the first separator comes right after that piece, and
      the last piece holds none. */
  lemma {:induction false} SplitOnLeftmost(s: string, sep: string)
    requires sep != []
    ensures var parts := SplitOn(s, sep);
            && (forall k :: 0 <= k < |parts| - 1 ==> Find(JoinOn(parts[k..], sep), sep) == Some(|parts[k]|))
            && Find(parts[|parts| - 1], sep).None?
    decreases |s|
  {
    var parts := SplitOn(s, sep);
    match Find(s, sep)
    case None =>
    case Some(i) =>
      var rest := s[i + |sep|..];
      var tail := SplitOn(rest, sep);
      assert parts == [s[..i]] + tail;
      SplitOnLeftmost(rest, sep);
      JoinSplitOn(s, sep);
      forall k | 0 <= k < |parts| - 1 ensures Find(JoinOn(parts[k..], sep), sep) == Some(|parts[k]|) {
        if k == 0 {
          assert parts[0..] == parts;
        } else {
          assert parts[k..] == tail[k - 1..];
        }
      }
  }

  /** `[d.strip() for d in chunks if d.strip()]` */
  function StrippedNonEmpty(chunks: seq<string>): (r: seq<string>)
  {
    if chunks == [] then []
    else (if Strip(chunks[0]) != "" then [Strip(chunks[0])] else []) + StrippedNonEmpty(chunks[1..])
  }

  /** The chunks of `chunks` whose strip is not empty. */
  function NonBlankAt(chunks: seq<string>): nat -> bool {
    (i: nat) => i < |chunks| && Strip(chunks[i]) != ""
  }

  /** What survives is the strip of every chunk that does not strip to
      nothing, in the chunks' order; it is non-empty and neither starts nor
      ends with whitespace. */
  lemma StrippedNonEmptySpec(chunks: seq<string>)
    ensures var r := StrippedNonEmpty(chunks);
            var kept := Where(0, |chunks|, NonBlankAt(chunks));
            && |r| == |kept| <= |chunks|
            && (forall k :: 0 <= k < |r| ==> r[k] == Strip(chunks[kept[k]]))
            && forall k :: 0 <= k < |r| ==> Trimmed(r[k])
  {
    var r := StrippedNonEmpty(chunks);
    var kept := Where(0, |chunks|, NonBlankAt(chunks));
    StrippedFrom(chunks, 0);
    assert chunks[0..] == chunks;
    forall k | 0 <= k < |r| ensures Trimmed(r[k]) {
      assert NonBlankAt(chunks)(kept[k]);
      StripTrimmed(chunks[kept[k]]);
    }
  }

  /** Non-empty, and neither starting nor ending with whitespace. */
  predicate Trimmed(d: string) {
    d != "" && !IsSpace(d[0]) && !IsSpace(d[|d| - 1])
  }

  lemma StripTrimmed(s: string)
    requires Strip(s) != ""
    ensures Trimmed(Strip(s))
  {
  }

  /** The stripped descriptions of `chunks[lo..]`, against the positions
      from `lo` on. */
  lemma {:induction false} StrippedFrom(chunks: seq<string>, lo: nat)
    requires lo <= |chunks|
    ensures var r := StrippedNonEmpty(chunks[lo..]);
            var kept := Where(lo, |chunks|, NonBlankAt(chunks));
            |r| == |kept| && forall k :: 0 <= k < |r| ==> r[k] == Strip(chunks[kept[k]])
    decreases |chunks| - lo
  {
    if lo < |chunks| {
      StrippedFrom(chunks, lo + 1);
      StrippedStep(chunks, lo);
      assert Where(lo, |chunks|, NonBlankAt(chunks)) ==
             (if NonBlankAt(chunks)(lo) then [lo] else []) + Where(lo + 1, |chunks|, NonBlankAt(chunks));
    }
  }

  /** The chunk at `lo` yields a description exactly when it does not strip
      to nothing. */
  lemma StrippedStep(chunks: seq<string>, lo: nat)
    requires lo < |chunks|
    ensures StrippedNonEmpty(chunks[lo..]) ==
            (if NonBlankAt(chunks)(lo) then [Strip(chunks[lo])] else []) + StrippedNonEmpty(chunks[lo + 1..])
  {
    assert chunks[lo..][0] == chunks[lo];
    assert chunks[lo..][1..] == chunks[lo + 1..];
  }

  /** The descriptions of the combined FRED file: its blank-line separated
      paragraphs, stripped, the empty ones dropped. */
  function Descriptions(content: string): seq<string> {
    StrippedNonEmpty(SplitOn(content, "\n\n"))
  }

  /** The example a FRED description yields when its cleaned text is long
      enough. */
  function FredExample(description: string): Option<Example> {
    var cleaned := CleanText(description);
    if cleaned != "" && |cleaned| > MIN_DESCRIPTION_LENGTH then
      Some(Example(cleaned, Neutral, FredData, EconomicIndicator(|cleaned|)))
    else None
  }

  /** A description is kept exactly when its cleaned text has more than 50
      characters, as a neutral example carrying that text and its length. */
  lemma FredExampleSpec(description: string)
    ensures FredExample(description).Some? <==> |CleanText(description)| > MIN_DESCRIPTION_LENGTH
    ensures FredExample(description).Some? ==>
              FredExample(description).value ==
              Example(CleanText(description), Neutral, FredData, EconomicIndicator(|CleanText(description)|))
  {
  }

  /** The examples of a list of FRED descriptions, in order. */
  function FredExamples(descriptions: seq<string>): (r: seq<Example>)
    ensures |r| <= |descriptions|
    ensures forall k :: 0 <= k < |r| ==>
              && r[k].sentiment == Neutral && r[k].source == FredData
              && |r[k].text| > MIN_DESCRIPTION_LENGTH
              && r[k].metadata == EconomicIndicator(|r[k].text|)
  {
    CollectAll(descriptions, FredExample,
               (e: Example) => && e.sentiment == Neutral && e.source == FredData
                               && |e.text| > MIN_DESCRIPTION_LENGTH
                               && e.metadata == EconomicIndicator(|e.text|));
    Collect(descriptions, FredExample)
  }

  // ---------------------------------------------------------------------
  // Policy uncertainty files

  /** A `*.json` file of the policy directory; `data` is `None` where
      reading or parsing it raised. */
  datatype PolicyFile = PolicyFile(name: string, data: Option<Json>)

  /** What `for desc in data['text_descriptions']` iterates over: the items
      of a list, the characters of a string, the keys of a dict. Anything
      else makes the `in` test, the indexing or the iteration raise before
      the first item, as does a `data` that is not a dict. */
  function DescriptionItems(data: Json): (items: seq<Json>)
    ensures !data.JObj? ==> items == []
  {
    match data
    case JObj(entries) =>
      (match Lookup(entries, "text_descriptions")
       case Some(JArr(xs)) => xs
       case Some(JStr(s)) => seq(|s|, i requires 0 <= i < |s| => JStr([s[i]]))
       case Some(JObj(es)) => seq(|es|, i requires 0 <= i < |es| => JStr(es[i].0))
       case _ => [])
    case _ => []
  }

  /** Python truthiness of a JSON value. */
  predicate Truthy(j: Json) {
    match j
    case JNull => false
    case JBool(b) => b
    case JNum(n) => n != 0
    case JStr(s) => s != ""
    case JArr(xs) => xs != []
    case JObj(es) => es != []
  }

  /** `clean_text(desc)` on an arbitrary item: a falsy item cleans to `""`,
      a string is cleaned, anything else makes `re.sub` raise (`None`). */
  function CleanItem(item: Json): (r: Option<string>)
    ensures r.None? <==> Truthy(item) && !item.JStr?
    ensures item.JStr? ==> r == Some(CleanText(item.s))
    ensures !Truthy(item) ==> r == Some("")
  {
    if !Truthy(item) then Some("")
    else if item.JStr? then Some(CleanText(item.s))
    else None
  }

  /** The examples of the first `n` items of one file and whether one of
      them raised; the items after one that raised are not looked at. */
  function PolicyScan(items: seq<Json>, name: string, n: nat): (r: (seq<Example>, bool))
    requires n <= |items|
    ensures |r.0| <= n
    ensures forall k :: 0 <= k < |r.0| ==>
              && r.0[k].sentiment == Neutral && r.0[k].source == PolicyUncertainty
              && |r.0[k].text| > MIN_DESCRIPTION_LENGTH && r.0[k].metadata == PolicyMetadata(name)
  {
    if n == 0 then ([], false)
    else
      var (examples, raised) := PolicyScan(items, name, n - 1);
      if raised then (examples, true)
      else match CleanItem(items[n - 1])
        case None => (examples, true)
        case Some(cleaned) =>
          if cleaned != "" && |cleaned| > MIN_DESCRIPTION_LENGTH then
            (examples + [Example(cleaned, Neutral, PolicyUncertainty, PolicyMetadata(name))], false)
          else (examples, false)
  }

  /** One more item of a file that has not raised yet. */
  lemma PolicyScanNext(items: seq<Json>, name: string, n: nat)
    requires n < |items| && !PolicyScan(items, name, n).1
    ensures var prev := PolicyScan(items, name, n).0;
            var cleaned := CleanItem(items[n]);
            PolicyScan(items, name, n + 1) ==
              if cleaned.None? then (prev, true)
              else if cleaned.value != "" && |cleaned.value| > MIN_DESCRIPTION_LENGTH then
                (prev + [Example(cleaned.value, Neutral, PolicyUncertainty, PolicyMetadata(name))], false)
              else (prev, false)
  {
  }

  /** Once an item has raised, later items add nothing. */
  lemma {:induction false} PolicyScanStops(items: seq<Json>, name: string, m: nat, n: nat)
    requires m <= n <= |items|
    requires PolicyScan(items, name, m).1
    ensures PolicyScan(items, name, n) == PolicyScan(items, name, m)
    decreases n
  {
    if n > m {
      PolicyScanStops(items, name, m, n - 1);
    }
  }

  /** An item that raises ends the file: nothing after it is kept, while
      what came before it is. */
  lemma PolicyRaiseKeepsEarlier(items: seq<Json>, name: string, k: nat)
    requires k < |items| && CleanItem(items[k]).None?
    ensures PolicyScan(items, name, |items|).0 == PolicyScan(items, name, k).0
  {
    var before := PolicyScan(items, name, k);
    assert PolicyScan(items, name, k + 1) == (before.0, true);
    PolicyScanStops(items, name, k + 1, |items|);
  }

  function PolicyFileExamples(f: PolicyFile): seq<Example> {
    match f.data
    case None => []
    case Some(data) =>
      var items := DescriptionItems(data);
      PolicyScan(items, f.name, |items|).0
  }

  /** The examples of the policy files, in listing order. */
  function PolicyExamples(files: seq<PolicyFile>): seq<Example>
  {
    if files == [] then []
    else PolicyExamples(files[..|files| - 1]) + PolicyFileExamples(files[|files| - 1])
  }

  /** Every policy example is neutral, tagged with its source and longer
      than 50 characters. */
  lemma {:induction false} PolicyExamplesSpec(files: seq<PolicyFile>)
    ensures forall k :: 0 <= k < |PolicyExamples(files)| ==>
              && PolicyExamples(files)[k].sentiment == Neutral
              && PolicyExamples(files)[k].source == PolicyUncertainty
              && |PolicyExamples(files)[k].text| > MIN_DESCRIPTION_LENGTH
  {
    if files != [] {
      PolicyExamplesSpec(files[..|files| - 1]);
    }
  }

  // ---------------------------------------------------------------------
  // drop_duplicates(subset=['text'])

  /** `a` is `b` with some elements left out, the rest in order. */
  predicate SubsequenceOf<T(==)>(a: seq<T>, b: seq<T>) {
    a == [] || (b != [] && ((a[0] == b[0] && SubsequenceOf(a[1..], b[1..])) || SubsequenceOf(a, b[1..])))
  }

  /** The examples of `xs` whose text is neither in `seen` nor taken by an
      earlier example. */
  function KeepFirst(xs: seq<Example>, seen: set<string>): (r: seq<Example>)
    ensures |r| <= |xs|
    ensures forall i :: 0 <= i < |r| ==> r[i] in xs && r[i].text !in seen
    ensures forall i, j :: 0 <= i < j < |r| ==> r[i].text != r[j].text
    ensures SubsequenceOf(r, xs)
  {
    if xs == [] then []
    else if xs[0].text in seen then
      var rest := KeepFirst(xs[1..], seen);
      assert forall e :: e in rest ==> e in xs;
      rest
    else
      var rest := KeepFirst(xs[1..], seen + {xs[0].text});
      assert forall e :: e in rest ==> e in xs;
      [xs[0]] + rest
  }

  /** `df.drop_duplicates(subset=['text'])`, example by example. */
  function KeepFirstByText(xs: seq<Example>): (r: seq<Example>)
    ensures |r| <= |xs|
    ensures forall i, j :: 0 <= i < j < |r| ==> r[i].text != r[j].text
    ensures SubsequenceOf(r, xs)
  {
    KeepFirst(xs, {})
  }

  /** The texts of `xs`. */
  function Texts(xs: seq<Example>): set<string> {
    set k | 0 <= k < |xs| :: xs[k].text
  }

  /** Position `i` holds the first example with its text. */
  function FirstAt(xs: seq<Example>): nat -> bool {
    (i: nat) => i < |xs| && forall j :: 0 <= j < i ==> xs[j].text != xs[i].text
  }

  /** De-duplication keeps exactly the examples at the positions that hold
      the first example of their text, in the order of those positions. */
  lemma KeepFirstOrder(xs: seq<Example>)
    ensures var r := KeepFirstByText(xs);
            var firsts := Where(0, |xs|, FirstAt(xs));
            |r| == |firsts| && forall k :: 0 <= k < |r| ==> r[k] == xs[firsts[k]]
  {
    KeepFirstFrom(xs, 0);
    assert xs[0..] == xs;
    assert Texts(xs[..0]) == {};
  }

  /** The examples kept from `xs[lo..]`, once the texts before `lo` have
      been seen, against the positions from `lo` on. */
  lemma {:induction false} KeepFirstFrom(xs: seq<Example>, lo: nat)
    requires lo <= |xs|
    ensures var r := KeepFirst(xs[lo..], Texts(xs[..lo]));
            var firsts := Where(lo, |xs|, FirstAt(xs));
            |r| == |firsts| && forall k :: 0 <= k < |r| ==> r[k] == xs[firsts[k]]
    decreases |xs| - lo
  {
    if lo < |xs| {
      KeepFirstFrom(xs, lo + 1);
      KeepFirstStep(xs, lo);
      assert Where(lo, |xs|, FirstAt(xs)) ==
             (if FirstAt(xs)(lo) then [lo] else []) + Where(lo + 1, |xs|, FirstAt(xs));
    }
  }

  /** The example at `lo` is kept exactly when it is the first with its
      text. */
  lemma KeepFirstStep(xs: seq<Example>, lo: nat)
    requires lo < |xs|
    ensures KeepFirst(xs[lo..], Texts(xs[..lo])) ==
            (if FirstAt(xs)(lo) then [xs[lo]] else []) + KeepFirst(xs[lo + 1..], Texts(xs[..lo + 1]))
  {
    var ys := xs[lo..];
    var seen, next := Texts(xs[..lo]), Texts(xs[..lo + 1]);
    assert ys[0] == xs[lo] && ys[1..] == xs[lo + 1..];
    KeepFirstUnfold(ys, seen);
    SeenStep(xs, lo);
    FirstAtUnseen(xs, lo);
    if FirstAt(xs)(lo) {
      assert KeepFirst(ys, seen) == [xs[lo]] + KeepFirst(xs[lo + 1..], next);
    } else {
      assert next == seen;
      assert KeepFirst(ys, seen) == KeepFirst(xs[lo + 1..], next);
    }
  }

  lemma KeepFirstUnfold(ys: seq<Example>, seen: set<string>)
    requires ys != []
    ensures KeepFirst(ys, seen) ==
            if ys[0].text in seen then KeepFirst(ys[1..], seen)
            else [ys[0]] + KeepFirst(ys[1..], seen + {ys[0].text})
  {
  }

  /** The first example with its text is the one whose text was not seen
      before it. */
  lemma FirstAtUnseen(xs: seq<Example>, lo: nat)
    requires lo < |xs|
    ensures FirstAt(xs)(lo) <==> xs[lo].text !in Texts(xs[..lo])
  {
    if xs[lo].text in Texts(xs[..lo]) {
      var j :| 0 <= j < lo && xs[..lo][j].text == xs[lo].text;
      assert xs[j].text == xs[lo].text;
    } else {
      forall j | 0 <= j < lo ensures xs[j].text != xs[lo].text {
        assert xs[..lo][j] == xs[j];
      }
    }
  }

  /** The texts seen grow by one example at a time. */
  lemma SeenStep(xs: seq<Example>, lo: nat)
    requires lo < |xs|
    ensures Texts(xs[..lo + 1]) == Texts(xs[..lo]) + {xs[lo].text}
  {
    assert forall k :: 0 <= k < lo ==> xs[..lo + 1][k] == xs[..lo][k];
    assert xs[..lo + 1][lo] == xs[lo];
  }

  /** Every text outside `seen` is still represented, by the first example
      that carries it. */
  lemma {:induction false} KeepFirstCovers(xs: seq<Example>, seen: set<string>, i: nat)
    requires i < |xs| && xs[i].text !in seen
    ensures exists j :: 0 <= j < |KeepFirst(xs, seen)| && KeepFirst(xs, seen)[j].text == xs[i].text &&
                        KeepFirst(xs, seen)[j] == xs[FirstWithText(xs, xs[i].text)]
    decreases i
  {
    var r := KeepFirst(xs, seen);
    if xs[0].text == xs[i].text {
      assert r[0] == xs[0];
      assert FirstWithText(xs, xs[i].text) == 0;
    } else if xs[0].text in seen {
      KeepFirstCovers(xs[1..], seen, i - 1);
      FirstWithTextTail(xs, xs[i].text);
    } else {
      KeepFirstCovers(xs[1..], seen + {xs[0].text}, i - 1);
      FirstWithTextTail(xs, xs[i].text);
      var j :| 0 <= j < |KeepFirst(xs[1..], seen + {xs[0].text})| &&
               KeepFirst(xs[1..], seen + {xs[0].text})[j].text == xs[i].text &&
               KeepFirst(xs[1..], seen + {xs[0].text})[j] == xs[1..][FirstWithText(xs[1..], xs[i].text)];
      assert r[j + 1] == KeepFirst(xs[1..], seen + {xs[0].text})[j];
    }
  }

  /** The position of the first example with text `t`. */
  function FirstWithText(xs: seq<Example>, t: string): (i: nat)
    requires exists k :: 0 <= k < |xs| && xs[k].text == t
    ensures i < |xs| && xs[i].text == t
    ensures forall k :: 0 <= k < i ==> xs[k].text != t
  {
    if xs[0].text == t then 0
    else
      var k :| 0 <= k < |xs| && xs[k].text == t;
      assert xs[1..][k - 1].text == t;
      1 + FirstWithText(xs[1..], t)
  }

  lemma FirstWithTextTail(xs: seq<Example>, t: string)
    requires exists k :: 0 <= k < |xs| && xs[k].text == t
    requires xs[0].text != t
    ensures exists k :: 0 <= k < |xs[1..]| && xs[1..][k].text == t
    ensures FirstWithText(xs, t) == 1 + FirstWithText(xs[1..], t)
  {
    var k :| 0 <= k < |xs| && xs[k].text == t;
    assert xs[1..][k - 1].text == t;
  }

  /** De-duplication keeps, for every text, the first example carrying it. */
  lemma KeepFirstByTextCovers(xs: seq<Example>, i: nat)
    requires i < |xs|
    ensures xs[FirstWithText(xs, xs[i].text)] in KeepFirstByText(xs)
  {
    KeepFirstCovers(xs, {}, i);
  }

}
