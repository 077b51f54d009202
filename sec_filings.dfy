/** `download_sec_filings`: for every company of a fixed list, the recent
    filings the SEC submissions endpoint lists are walked in order, and the
    first `FILINGS_PER_TYPE` filings of each form in `FORM_TYPES` that can
    be fetched and written are saved under a name built from the accession
    number, the form and the filing date.

    The network and the disk are oracles: `fetch` gives the body of a URL or
    `None` when the request raised (an HTTP error or any other failure), and
    `canWrite` says whether opening and writing a path succeeds. */
module SecFilings {
  import opened Common

  const OUTPUT_DIR: string := "data/raw/wealth_data/sec_filings"
  /** The form types to download; only membership is ever asked of them. */
  const FORM_TYPES: set<string> := {"10-K", "10-Q", "8-K"}
  const FILINGS_PER_TYPE: nat := 10

  /** Company name and Central Index Key, in the order they are processed. */
  const COMPANIES: seq<(string, string)> := [
    ("Apple", "320193"), ("Amazon", "1018724"), ("Google", "1652044"),
    ("Microsoft", "789019"), ("Tesla", "1326801"), ("JPMorgan Chase", "19617"),
    ("Bank of America", "70858"), ("Goldman Sachs", "886982"),
    ("BlackRock", "1364742"), ("Berkshire Hathaway", "1067983")
  ]

  // ---------------------------------------------------------------------
  // URLs and file names

  /** `str.zfill(width)`: zeros are put in front, after a leading sign. */
  function ZFill(s: string, width: nat): (r: string)
    ensures |r| == if |s| >= width then |s| else width
    ensures |s| >= width ==> r == s
  {
    if |s| >= width then s
    else if s != [] && (s[0] == '+' || s[0] == '-') then [s[0]] + Repeat('0', width - |s|) + s[1..]
    else Repeat('0', width - |s|) + s
  }

  predicate IsDigits(s: string) {
    forall i :: 0 <= i < |s| ==> '0' <= s[i] <= '9'
  }

  /** The number a string of decimal digits denotes. */
  function DecimalValue(s: string): nat
    requires IsDigits(s)
  {
    if s == [] then 0
    else DecimalValue(s[..|s| - 1]) * 10 + (s[|s| - 1] as int - '0' as int)
  }

  lemma {:induction false} ZerosValue(k: nat)
    ensures DecimalValue(Repeat('0', k)) == 0
  {
    if k > 0 {
      assert Repeat('0', k)[..k - 1] == Repeat('0', k - 1);
      ZerosValue(k - 1);
    }
  }

  lemma {:induction false} LeadingZerosValue(k: nat, s: string)
    requires IsDigits(s)
    ensures IsDigits(Repeat('0', k) + s)
    ensures DecimalValue(Repeat('0', k) + s) == DecimalValue(s)
    decreases |s|
  {
    var z := Repeat('0', k) + s;
    assert IsDigits(z) by {
      forall i | 0 <= i < |z| ensures '0' <= z[i] <= '9' {
        if i >= k {
          assert z[i] == s[i - k];
        }
      }
    }
    if s == [] {
      assert z == Repeat('0', k);
      ZerosValue(k);
    } else {
      assert z[..|z| - 1] == Repeat('0', k) + s[..|s| - 1];
      assert z[|z| - 1] == s[|s| - 1];
      LeadingZerosValue(k, s[..|s| - 1]);
    }
  }

  /** Padding a CIK keeps the number it denotes and gives it exactly
      `width` characters when it was shorter. */
  lemma ZFillKeepsValue(s: string, width: nat)
    requires IsDigits(s)
    ensures |ZFill(s, width)| == if |s| >= width then |s| else width
    ensures IsDigits(ZFill(s, width))
    ensures DecimalValue(ZFill(s, width)) == DecimalValue(s)
    ensures |s| >= width ==> ZFill(s, width) == s
  {
    if |s| < width {
      LeadingZerosValue(width - |s|, s);
    }
  }

  /** A signed number keeps its sign in front of the zeros. */
  lemma ZFillSigned(s: string, width: nat)
    requires |s| < width && s != [] && s[0] == '-'
    ensures |ZFill(s, width)| == width
    ensures ZFill(s, width)[0] == '-' && ZFill(s, width)[width - |s| + 1..] == s[1..]
  {
    var z := Repeat('0', width - |s|);
    assert ZFill(s, width) == [s[0]] + z + s[1..];
    assert ([s[0]] + z + s[1..])[|z| + 1..] == s[1..];
  }

  /** The submissions endpoint of a CIK. */
  function SubmissionsUrl(cik: string): string {
    "https://data.sec.gov/submissions/CIK" + ZFill(cik, 10) + ".json"
  }

  lemma SubmissionsUrlExample()
    ensures SubmissionsUrl("320193") == "https://data.sec.gov/submissions/CIK0000320193.json"
  {
    assert Repeat('0', 4) == "0000";
    assert ZFill("320193", 10) == "0000320193";
  }

  const ARCHIVES: string := "https://www.sec.gov/Archives/edgar/data/"

  /** `get_filing_content`'s URL: the dashes of the accession number are
      dropped. */
  function FilingUrl(cik: string, accession: string, document: string): string {
    ARCHIVES + (cik + "/" + RemoveChar(accession, '-') + "/" + document)
  }

  /** The part after the archive prefix splits back into the CIK, the
      accession number without dashes and the document, when none of them
      holds a slash. */
  lemma FilingUrlParts(cik: string, accession: string, document: string)
    requires '/' !in cik && '/' !in accession && '/' !in document
    ensures FilingUrl(cik, accession, document)[..|ARCHIVES|] == ARCHIVES
    ensures Split(FilingUrl(cik, accession, document)[|ARCHIVES|..], '/') ==
            [cik, RemoveChar(accession, '-'), document]
  {
    var a := RemoveChar(accession, '-');
    var url := FilingUrl(cik, accession, document);
    assert url[|ARCHIVES|..] == cik + "/" + a + "/" + document;
    assert '/' !in a;
    SplitThree(cik, a, document);
  }

  lemma SplitThree(x: string, y: string, z: string)
    requires '/' !in x && '/' !in y && '/' !in z
    ensures Split(x + "/" + y + "/" + z, '/') == [x, y, z]
  {
    var parts := [x, y, z];
    assert Join(parts[2..], '/') == z;
    assert Join(parts[1..], '/') == y + ['/'] + z;
    assert Join(parts, '/') == x + "/" + y + "/" + z;
    SplitJoin(parts, '/');
  }

  /** `f"{accession_number}_{form_type.replace('/', '_')}_{filing_date}.txt"` */
  function FilingFileName(accession: string, form: string, date: string): string {
    RemoveChar(accession, '-') + "_" + ReplaceChar(form, '/', '_') + "_" + date + ".txt"
  }

  // ---------------------------------------------------------------------
  // Choosing the filings of one company

  /** The four parallel lists of `filings.recent`; a missing list is empty. */
  datatype Recent = Recent(accessionNumbers: seq<string>, filingDates: seq<string>,
                           forms: seq<string>, primaryDocuments: seq<string>)

  /** The requests and writes of one run. */
  datatype Outcomes = Outcomes(fetch: string -> Option<string>, canWrite: string -> bool)

  /** A written file: the position of its entry in the recent lists, its
      form, its path and its content. */
  datatype Saved = Saved(index: nat, form: string, path: string, content: string)

  /** `filing_counts`, the files written so far, and whether an exception
      outside the per-filing `try` ended the company. */
  datatype Selection = Selection(counts: map<string, nat>, saved: seq<Saved>, aborted: bool)

  /** `filing_counts` has an entry for every form type. */
  predicate Tracks(counts: map<string, nat>) {
    "10-K" in counts && "10-Q" in counts && "8-K" in counts
  }

  function InitialCounts(): (c: map<string, nat>)
    ensures Tracks(c) && forall f :: f in FORM_TYPES ==> c[f] == 0
  {
    map f | f in FORM_TYPES :: 0
  }

  /** `os.path.join(dir, name)` on POSIX: an absolute `name` discards
      `dir`; otherwise a `/` is put between them unless `dir` is empty or
      already ends in one. */
  function PathJoin(dir: string, name: string): string {
    if (name != [] && name[0] == '/') || dir == [] then name
    else if dir[|dir| - 1] == '/' then dir + name
    else dir + "/" + name
  }

  /** The joined path always ends in `name`, and is `name` itself when
      `name` is absolute. */
  lemma PathJoinEndsWith(dir: string, name: string)
    ensures var r := PathJoin(dir, name);
            |r| >= |name| && r[|r| - |name|..] == name
    ensures name != [] && name[0] == '/' ==> PathJoin(dir, name) == name
  {
  }

  /** A relative name goes under the directory, one `/` between them. */
  lemma PathJoinRelative(dir: string, name: string)
    requires dir != [] && dir[|dir| - 1] != '/'
    requires name == [] || name[0] != '/'
    ensures PathJoin(dir, name) == dir + "/" + name
  {
  }

  /** `os.path.join(output_dir, filename)`. */
  function SavePath(r: Recent, i: nat): string
    requires i < |r.accessionNumbers| && i < |r.forms| && i < |r.filingDates|
  {
    PathJoin(OUTPUT_DIR, FilingFileName(r.accessionNumbers[i], r.forms[i], r.filingDates[i]))
  }

  /** Unless the accession number without its dashes starts with `/`, the
      file is saved under the output directory. */
  lemma SavePathUnderOutput(r: Recent, i: nat)
    requires i < |r.accessionNumbers| && i < |r.forms| && i < |r.filingDates|
    requires var a := RemoveChar(r.accessionNumbers[i], '-'); a == [] || a[0] != '/'
    ensures SavePath(r, i) == OUTPUT_DIR + "/" + FilingFileName(r.accessionNumbers[i], r.forms[i], r.filingDates[i])
  {
    var a := RemoveChar(r.accessionNumbers[i], '-');
    var name := FilingFileName(r.accessionNumbers[i], r.forms[i], r.filingDates[i]);
    assert name[0] == (a + "_")[0];
    PathJoinRelative(OUTPUT_DIR, name);
  }

  /** One pass of the loop over the accession numbers. A missing
      `form_types[i]`, or a missing date or document for an entry that
      qualifies, raises `IndexError` outside the per-filing `try`, which
      ends the company; a failed request or write only skips the entry. */
  function Step(cik: string, r: Recent, net: Outcomes, s: Selection, i: nat): Selection
    requires i < |r.accessionNumbers| && Tracks(s.counts)
  {
    if s.aborted then s
    else if i >= |r.forms| then s.(aborted := true)
    else
      var form := r.forms[i];
      if !(form in FORM_TYPES && s.counts[form] < FILINGS_PER_TYPE) then s
      else if i >= |r.filingDates| || i >= |r.primaryDocuments| then s.(aborted := true)
      else
        match net.fetch(FilingUrl(cik, r.accessionNumbers[i], r.primaryDocuments[i]))
        case None => s
        case Some(content) =>
          if !net.canWrite(SavePath(r, i)) then s
          else s.(counts := s.counts[form := s.counts[form] + 1],
                  saved := s.saved + [Saved(i, form, SavePath(r, i), content)])
  }

  /** The state after the first `n` entries. */
  function Select(cik: string, r: Recent, net: Outcomes, n: nat): (s: Selection)
    requires n <= |r.accessionNumbers|
    ensures Tracks(s.counts)
  {
    if n == 0 then Selection(InitialCounts(), [], false)
    else Step(cik, r, net, Select(cik, r, net, n - 1), n - 1)
  }

  /** Once the company is abandoned, later entries change nothing. */
  lemma {:induction false} SelectStops(cik: string, r: Recent, net: Outcomes, m: nat, n: nat)
    requires m <= n <= |r.accessionNumbers| && Select(cik, r, net, m).aborted
    ensures Select(cik, r, net, n) == Select(cik, r, net, m)
    decreases n - m
  {
    if m < n {
      SelectStops(cik, r, net, m, n - 1);
    }
  }

  /** The loop over `enumerate(accession_numbers)`, with `filing_counts` as
      a dictionary updated in place. */
  method SelectFilings(cik: string, r: Recent, net: Outcomes) returns (saved: seq<Saved>, aborted: bool)
    ensures saved == Select(cik, r, net, |r.accessionNumbers|).saved
    ensures aborted == Select(cik, r, net, |r.accessionNumbers|).aborted
  {
    var filingCounts: map<string, nat> := InitialCounts();
    saved := [];
    aborted := false;
    var i := 0;
    while i < |r.accessionNumbers| && !aborted
      invariant 0 <= i <= |r.accessionNumbers|
      invariant Select(cik, r, net, i) == Selection(filingCounts, saved, aborted)
    {
      ghost var before := Selection(filingCounts, saved, aborted);
      if i >= |r.forms| {
        aborted := true;
      } else {
        var form := r.forms[i];
        if form in FORM_TYPES && filingCounts[form] < FILINGS_PER_TYPE {
          if i >= |r.filingDates| || i >= |r.primaryDocuments| {
            aborted := true;
          } else {
            var content := net.fetch(FilingUrl(cik, r.accessionNumbers[i], r.primaryDocuments[i]));
            if content.Some? {
              var path := PathJoin(OUTPUT_DIR, FilingFileName(r.accessionNumbers[i], form, r.filingDates[i]));
              if net.canWrite(path) {
                saved := saved + [Saved(i, form, path, content.value)];
                filingCounts := filingCounts[form := filingCounts[form] + 1];
              }
            }
          }
        }
      }
      assert Selection(filingCounts, saved, aborted) == Step(cik, r, net, before, i);
      i := i + 1;
    }
    if aborted {
      SelectStops(cik, r, net, i, |r.accessionNumbers|);
    }
  }

  // ---------------------------------------------------------------------
  // What the selection promises

  /** The number of saved files of form `f`. */
  function CountOf(saved: seq<Saved>, f: string): (k: nat)
    ensures k <= |saved|
  {
    if saved == [] then 0
    else CountOf(saved[..|saved| - 1], f) + (if saved[|saved| - 1].form == f then 1 else 0)
  }

  /** The entries of the saved files of form `f`, in order. */
  function IndicesOf(saved: seq<Saved>, f: string): (r: seq<nat>)
    ensures |r| == CountOf(saved, f)
  {
    if saved == [] then []
    else IndicesOf(saved[..|saved| - 1], f) + (if saved[|saved| - 1].form == f then [saved[|saved| - 1].index] else [])
  }

  /** Entry `j` could be saved: its form is a form type, its date and
      document exist, its request succeeds and its file can be written. */
  predicate Succeeds(cik: string, r: Recent, net: Outcomes, j: nat)
    requires j < |r.accessionNumbers|
  {
    && j < |r.forms| && r.forms[j] in FORM_TYPES
    && j < |r.filingDates| && j < |r.primaryDocuments|
    && net.fetch(FilingUrl(cik, r.accessionNumbers[j], r.primaryDocuments[j])).Some?
    && net.canWrite(SavePath(r, j))
  }

  /** The entries among the first `n` of form `f` that succeed, in order. */
  function Successes(cik: string, r: Recent, net: Outcomes, f: string, n: nat): seq<nat>
    requires n <= |r.accessionNumbers|
  {
    if n == 0 then []
    else Successes(cik, r, net, f, n - 1) +
         (if Succeeds(cik, r, net, n - 1) && r.forms[n - 1] == f then [n - 1] else [])
  }

  function Take(s: seq<nat>, k: nat): (r: seq<nat>)
    ensures |r| == if |s| <= k then |s| else k
  {
    if |s| <= k then s else s[..k]
  }

  /** Entry `i` is saved: the company goes on, the entry succeeds and its
      form still has a free slot. */
  predicate Takes(cik: string, r: Recent, net: Outcomes, s: Selection, i: nat)
    requires i < |r.accessionNumbers| && Tracks(s.counts)
  {
    !s.aborted && Succeeds(cik, r, net, i) && s.counts[r.forms[i]] < FILINGS_PER_TYPE
  }

  /** The file entry `i` is saved as. */
  function SavedFile(cik: string, r: Recent, net: Outcomes, i: nat): Saved
    requires i < |r.accessionNumbers| && Succeeds(cik, r, net, i)
  {
    Saved(i, r.forms[i], SavePath(r, i), net.fetch(FilingUrl(cik, r.accessionNumbers[i], r.primaryDocuments[i])).value)
  }

  /** A step either saves the entry and counts it, or leaves the files and
      the counters alone; an abandoned company stays abandoned. */
  lemma StepCases(cik: string, r: Recent, net: Outcomes, s: Selection, i: nat)
    requires i < |r.accessionNumbers| && Tracks(s.counts)
    ensures Takes(cik, r, net, s, i) ==>
              Step(cik, r, net, s, i) ==
              Selection(s.counts[r.forms[i] := s.counts[r.forms[i]] + 1], s.saved + [SavedFile(cik, r, net, i)], false)
    ensures !Takes(cik, r, net, s, i) ==>
              Step(cik, r, net, s, i).saved == s.saved && Step(cik, r, net, s, i).counts == s.counts
    ensures s.aborted ==> Step(cik, r, net, s, i) == s
    ensures !Step(cik, r, net, s, i).aborted ==> !s.aborted
  {
  }

  /** What one saved file is: an entry among the first `n` of a form type,
      fetched from its URL and written under its name. */
  predicate SavedOk(cik: string, r: Recent, net: Outcomes, n: nat, e: Saved)
    requires n <= |r.accessionNumbers|
  {
    && e.index < n && Succeeds(cik, r, net, e.index)
    && e == SavedFile(cik, r, net, e.index)
  }

  /** The counter of each form is the number of its files, at most
      `FILINGS_PER_TYPE`. */
  ghost predicate CountsOk(s: Selection) {
    forall f :: f in s.counts ==> s.counts[f] == CountOf(s.saved, f) <= FILINGS_PER_TYPE
  }

  /** Every file is an entry among the first `n` that succeeded, saved
      with its own form, path and content. */
  ghost predicate FilesOk(cik: string, r: Recent, net: Outcomes, n: nat, saved: seq<Saved>)
    requires n <= |r.accessionNumbers|
  {
    forall k :: 0 <= k < |saved| ==> SavedOk(cik, r, net, n, saved[k])
  }

  /** The files are in entry order. */
  ghost predicate InOrder(saved: seq<Saved>) {
    forall k, l :: 0 <= k < l < |saved| ==> saved[k].index < saved[l].index
  }

  lemma CountOfSnoc(saved: seq<Saved>, e: Saved, f: string)
    ensures CountOf(saved + [e], f) == CountOf(saved, f) + (if e.form == f then 1 else 0)
    ensures IndicesOf(saved + [e], f) == IndicesOf(saved, f) + (if e.form == f then [e.index] else [])
  {
    assert (saved + [e])[..|saved|] == saved;
  }

  lemma StepCounts(cik: string, r: Recent, net: Outcomes, s: Selection, i: nat)
    requires i < |r.accessionNumbers| && Tracks(s.counts) && CountsOk(s)
    ensures CountsOk(Step(cik, r, net, s, i))
  {
    StepCases(cik, r, net, s, i);
    if Takes(cik, r, net, s, i) {
      var t := Step(cik, r, net, s, i);
      var e := SavedFile(cik, r, net, i);
      forall f | f in t.counts ensures t.counts[f] == CountOf(t.saved, f) <= FILINGS_PER_TYPE {
        CountOfSnoc(s.saved, e, f);
      }
    }
  }

  lemma StepFiles(cik: string, r: Recent, net: Outcomes, s: Selection, i: nat)
    requires i < |r.accessionNumbers| && Tracks(s.counts)
    requires FilesOk(cik, r, net, i, s.saved) && InOrder(s.saved)
    ensures FilesOk(cik, r, net, i + 1, Step(cik, r, net, s, i).saved)
    ensures InOrder(Step(cik, r, net, s, i).saved)
  {
    StepCases(cik, r, net, s, i);
    var t := Step(cik, r, net, s, i);
    forall k | 0 <= k < |t.saved| ensures SavedOk(cik, r, net, i + 1, t.saved[k]) {
      if k < |s.saved| {
        assert t.saved[k] == s.saved[k];
        assert SavedOk(cik, r, net, i, s.saved[k]);
      }
    }
    forall k, l | 0 <= k < l < |t.saved| ensures t.saved[k].index < t.saved[l].index {
      assert t.saved[k] == s.saved[k];
      if l < |s.saved| {
        assert t.saved[l] == s.saved[l];
      } else {
        assert SavedOk(cik, r, net, i, s.saved[k]);
      }
    }
  }

  /** The three invariants of a selection after `n` entries. */
  ghost predicate SelectionOk(cik: string, r: Recent, net: Outcomes, n: nat, s: Selection)
    requires n <= |r.accessionNumbers|
  {
    CountsOk(s) && FilesOk(cik, r, net, n, s.saved) && InOrder(s.saved)
  }

  lemma StepInvariants(cik: string, r: Recent, net: Outcomes, s: Selection, i: nat, t: Selection)
    requires i < |r.accessionNumbers| && Tracks(s.counts)
    requires SelectionOk(cik, r, net, i, s) && t == Step(cik, r, net, s, i)
    ensures SelectionOk(cik, r, net, i + 1, t)
  {
    StepCounts(cik, r, net, s, i);
    StepFiles(cik, r, net, s, i);
  }

  /** The selection keeps the counters, the files and their order right. */
  lemma {:induction false} SelectInvariants(cik: string, r: Recent, net: Outcomes, n: nat)
    requires n <= |r.accessionNumbers|
    ensures SelectionOk(cik, r, net, n, Select(cik, r, net, n))
  {
    if n > 0 {
      var m := n - 1;
      SelectInvariants(cik, r, net, m);
      StepInvariants(cik, r, net, Select(cik, r, net, m), m, Select(cik, r, net, n));
    }
  }

  /** Every company saves at most `FILINGS_PER_TYPE` files per form type,
      and so at most thirty files. */
  lemma Quota(cik: string, r: Recent, net: Outcomes)
    ensures forall f :: f in FORM_TYPES ==>
              CountOf(Select(cik, r, net, |r.accessionNumbers|).saved, f) <= FILINGS_PER_TYPE
    ensures |Select(cik, r, net, |r.accessionNumbers|).saved| <= 3 * FILINGS_PER_TYPE
  {
    var n := |r.accessionNumbers|;
    SelectInvariants(cik, r, net, n);
    var s := Select(cik, r, net, n);
    forall k | 0 <= k < |s.saved| ensures s.saved[k].form in FORM_TYPES {
      assert SavedOk(cik, r, net, n, s.saved[k]);
    }
    CountsCover(s.saved);
    assert s.counts["10-K"] <= 10 && s.counts["10-Q"] <= 10 && s.counts["8-K"] <= 10;
  }

  /** Files whose forms are all form types are counted once each. */
  lemma {:induction false} CountsCover(saved: seq<Saved>)
    requires forall k :: 0 <= k < |saved| ==> saved[k].form in FORM_TYPES
    ensures |saved| == CountOf(saved, "10-K") + CountOf(saved, "10-Q") + CountOf(saved, "8-K")
  {
    if saved != [] {
      CountsCover(saved[..|saved| - 1]);
    }
  }

  /** Without an exception that ends the company, the files of each form
      are exactly the first `FILINGS_PER_TYPE` entries of that form that
      succeed: a failed request or write does not use up a slot, and no
      later entry is saved while an earlier one that succeeds is passed
      over. */
  lemma {:induction false} FirstSuccessesSaved(cik: string, r: Recent, net: Outcomes, n: nat, f: string)
    requires n <= |r.accessionNumbers| && !Select(cik, r, net, n).aborted && f in FORM_TYPES
    ensures IndicesOf(Select(cik, r, net, n).saved, f) == Take(Successes(cik, r, net, f, n), FILINGS_PER_TYPE)
  {
    if n > 0 {
      var s := Select(cik, r, net, n - 1);
      StepCases(cik, r, net, s, n - 1);
      FirstSuccessesSaved(cik, r, net, n - 1, f);
      SelectInvariants(cik, r, net, n - 1);
      StepFirst(cik, r, net, s, n - 1, f, Successes(cik, r, net, f, n - 1));
    }
  }

  lemma TakeSnoc(prev: seq<nat>, x: nat, k: nat)
    ensures |prev| < k ==> Take(prev + [x], k) == prev + [x]
    ensures |prev| >= k ==> Take(prev + [x], k) == Take(prev, k)
  {
    if |prev| >= k {
      assert (prev + [x])[..k] == prev[..k];
    }
  }

  /** One step of `FirstSuccessesSaved`. */
  lemma StepFirst(cik: string, r: Recent, net: Outcomes, s: Selection, i: nat, f: string, prev: seq<nat>)
    requires i < |r.accessionNumbers| && Tracks(s.counts) && CountsOk(s) && f in FORM_TYPES
    requires !Step(cik, r, net, s, i).aborted
    requires IndicesOf(s.saved, f) == Take(prev, FILINGS_PER_TYPE)
    ensures IndicesOf(Step(cik, r, net, s, i).saved, f) ==
            Take(prev + (if Succeeds(cik, r, net, i) && r.forms[i] == f then [i] else []), FILINGS_PER_TYPE)
  {
    StepCases(cik, r, net, s, i);
    var hit := Succeeds(cik, r, net, i) && r.forms[i] == f;
    var taken := Take(prev, FILINGS_PER_TYPE);
    assert |taken| == s.counts[f];
    TakeSnoc(prev, i, FILINGS_PER_TYPE);
    if Takes(cik, r, net, s, i) {
      CountOfSnoc(s.saved, SavedFile(cik, r, net, i), f);
      if hit {
        assert |prev| < FILINGS_PER_TYPE;
      }
    } else if hit {
      assert |prev| >= FILINGS_PER_TYPE;
    } else {
      assert prev + [] == prev;
    }
  }

  /** When every list is as long as the accession numbers, no entry raises
      outside the per-filing `try`. */
  lemma {:induction false} AlignedNeverAborts(cik: string, r: Recent, net: Outcomes, n: nat)
    requires n <= |r.accessionNumbers|
    requires |r.forms| >= |r.accessionNumbers| && |r.filingDates| >= |r.accessionNumbers|
    requires |r.primaryDocuments| >= |r.accessionNumbers|
    ensures !Select(cik, r, net, n).aborted
  {
    if n > 0 {
      AlignedNeverAborts(cik, r, net, n - 1);
    }
  }

  /** A missing form list ends the company at its first entry, before any
      request. */
  lemma NoFormsSavesNothing(cik: string, r: Recent, net: Outcomes)
    requires |r.accessionNumbers| > 0 && r.forms == []
    ensures Select(cik, r, net, |r.accessionNumbers|).saved == []
    ensures Select(cik, r, net, |r.accessionNumbers|).aborted
  {
    assert Select(cik, r, net, 1).aborted;
    SelectStops(cik, r, net, 1, |r.accessionNumbers|);
  }

  // ---------------------------------------------------------------------
  // All companies

  /** The submissions reply: the request or its JSON raised, the reply has
      no `filings.recent`, or it has these recent filings. */
  datatype Submissions = RequestFailed | NoRecentFilings | RecentFilings(recent: Recent)

  /** The files one company saves. */
  function CompanyFiles(cik: string, submissions: string -> Submissions, net: Outcomes): (saved: seq<Saved>)
    ensures |saved| <= 3 * FILINGS_PER_TYPE
    ensures !submissions(SubmissionsUrl(cik)).RecentFilings? ==> saved == []
  {
    match submissions(SubmissionsUrl(cik))
    case RecentFilings(recent) =>
      Quota(cik, recent, net);
      Select(cik, recent, net, |recent.accessionNumbers|).saved
    case _ => []
  }

  /** The files the companies save, company after company. */
  function AllFiles(companies: seq<(string, string)>, submissions: string -> Submissions, net: Outcomes): (saved: seq<Saved>)
  {
    if companies == [] then []
    else AllFiles(companies[..|companies| - 1], submissions, net) +
         CompanyFiles(companies[|companies| - 1].1, submissions, net)
  }

  /** At most thirty files per company. */
  lemma {:induction false} AllFilesBound(companies: seq<(string, string)>, submissions: string -> Submissions, net: Outcomes)
    ensures |AllFiles(companies, submissions, net)| <= 30 * |companies|
  {
    if companies != [] {
      var prefix := companies[..|companies| - 1];
      AllFilesBound(prefix, submissions, net);
      var last := CompanyFiles(companies[|companies| - 1].1, submissions, net);
      assert |AllFiles(companies, submissions, net)| == |AllFiles(prefix, submissions, net)| + |last|;
    }
  }

  /** The loop over the companies, each in its own `try`, so one
      company's failure does not stop the next. */
  method DownloadAll(companies: seq<(string, string)>, submissions: string -> Submissions, net: Outcomes)
    returns (saved: seq<Saved>)
    ensures saved == AllFiles(companies, submissions, net)
    ensures |saved| <= 30 * |companies|
  {
    saved := [];
    var c := 0;
    while c < |companies|
      invariant 0 <= c <= |companies|
      invariant saved == AllFiles(companies[..c], submissions, net)
    {
      assert companies[..c + 1][..c] == companies[..c];
      var cik := companies[c].1;
      var reply := submissions(SubmissionsUrl(cik));
      if reply.RecentFilings? {
        var companyFiles, _ := SelectFilings(cik, reply.recent, net);
        saved := saved + companyFiles;
      }
      c := c + 1;
    }
    assert companies[..|companies|] == companies;
    AllFilesBound(companies, submissions, net);
  }

  /** `download_sec_filings()`: at most thirty files for each of the ten
      companies. */
  method DownloadSecFilings(submissions: string -> Submissions, net: Outcomes) returns (saved: seq<Saved>)
    ensures saved == AllFiles(COMPANIES, submissions, net)
    ensures |saved| <= 300
  {
    saved := DownloadAll(COMPANIES, submissions, net);
  }
}
