/** The `TrainingDataPreparer` class: its list of examples and the
    processing passes that append to it. Each pass is proved to append
    exactly the examples its specification function in `TrainingData`
    gives, in order. */
module Preparer {
  import opened Common
  import opened TrainingData

  /** The loop of `process_sec_filings` over the filing files and of
      `process_fred_data` over the descriptions: each item in order, its
      example appended when it yields one. */
  method CollectEach<A, B>(items: seq<A>, extract: A -> Option<B>) returns (added: seq<B>)
    ensures added == Collect(items, extract)
  {
    added := [];
    var i := 0;
    while i < |items|
      invariant 0 <= i <= |items|
      invariant added == Collect(items[..i], extract)
    {
      assert items[..i + 1][..i] == items[..i];
      var example := extract(items[i]);
      if example.Some? {
        added := added + [example.value];
      }
      i := i + 1;
    }
    assert items[..|items|] == items;
  }

  /** The inner loop of `process_policy_uncertainty`, over the
      descriptions of one file: the items are cleaned in order until one
      raises. */
  method ScanPolicyFile(f: PolicyFile) returns (fileExamples: seq<Example>)
    ensures fileExamples == PolicyFileExamples(f)
  {
    fileExamples := [];
    if f.data.Some? {
      var items := DescriptionItems(f.data.value);
      var k := 0;
      var raised := false;
      while k < |items| && !raised
        invariant 0 <= k <= |items|
        invariant PolicyScan(items, f.name, k) == (fileExamples, raised)
      {
        PolicyScanNext(items, f.name, k);
        var cleaned := CleanItem(items[k]);
        if cleaned.None? {
          raised := true;
        } else if cleaned.value != "" && |cleaned.value| > MIN_DESCRIPTION_LENGTH {
          fileExamples := fileExamples + [Example(cleaned.value, Neutral, PolicyUncertainty, PolicyMetadata(f.name))];
        }
        k := k + 1;
      }
      if raised {
        PolicyScanStops(items, f.name, k, |items|);
      }
    }
  }

  /** The outer loop of `process_policy_uncertainty` over the files. */
  method ScanPolicyFiles(files: seq<PolicyFile>) returns (added: seq<Example>)
    ensures added == PolicyExamples(files)
  {
    added := [];
    var i := 0;
    while i < |files|
      invariant 0 <= i <= |files|
      invariant added == PolicyExamples(files[..i])
    {
      assert files[..i + 1][..i] == files[..i];
      var fileExamples := ScanPolicyFile(files[i]);
      added := added + fileExamples;
      i := i + 1;
    }
    assert files[..|files|] == files;
  }

  class TrainingDataPreparer {
    var trainingData: seq<Example>

    /** The configuration the constructor loads is not used by the
        processing below. */
    constructor ()
      ensures trainingData == []
    {
      trainingData := [];
    }

    /** `process_sec_filings()` over the `*.txt` files of the filings
        directory, `None` when the directory does not exist. */
    method ProcessSecFilings(directory: Option<seq<SecFile>>) returns (processedCount: nat)
      modifies this
      ensures directory.None? ==> trainingData == old(trainingData) && processedCount == 0
      ensures directory.Some? ==> trainingData == old(trainingData) + SecExamples(directory.value) &&
                                  processedCount == |SecExamples(directory.value)|
    {
      processedCount := 0;
      if directory.Some? {
        var added := CollectEach(directory.value, SecExample);
        trainingData := trainingData + added;
        processedCount := |added|;
      }
    }

    /** `process_fred_data()`: `combined` is the content of
        `combined_economic_context.txt`, `None` when the directory or the
        file does not exist or reading it raised. */
    method ProcessFredData(combined: Option<string>) returns (processedCount: nat)
      modifies this
      ensures combined.None? ==> trainingData == old(trainingData) && processedCount == 0
      ensures combined.Some? ==> trainingData == old(trainingData) + FredExamples(Descriptions(combined.value)) &&
                                 processedCount == |FredExamples(Descriptions(combined.value))|
    {
      processedCount := 0;
      if combined.Some? {
        var added := CollectEach(Descriptions(combined.value), FredExample);
        trainingData := trainingData + added;
        processedCount := |added|;
      }
    }

    /** `process_policy_uncertainty()` over the `*.json` files of the
        policy directory, `None` when the directory does not exist. An item
        that raises abandons the rest of its file, keeping what the file
        had already added. */
    method ProcessPolicyUncertainty(directory: Option<seq<PolicyFile>>) returns (processedCount: nat)
      modifies this
      ensures directory.None? ==> trainingData == old(trainingData) && processedCount == 0
      ensures directory.Some? ==> trainingData == old(trainingData) + PolicyExamples(directory.value) &&
                                  processedCount == |PolicyExamples(directory.value)|
    {
      processedCount := 0;
      if directory.Some? {
        var added := ScanPolicyFiles(directory.value);
        trainingData := trainingData + added;
        processedCount := |added|;
      }
    }

    /** `create_training_dataset()` up to the columns it adds: the examples
        with the duplicated texts dropped, the first of each kept. */
    method CreateTrainingDataset() returns (dataset: seq<Example>)
      ensures dataset == KeepFirstByText(trainingData)
      ensures forall i, j :: 0 <= i < j < |dataset| ==> dataset[i].text != dataset[j].text
    {
      dataset := KeepFirstByText(trainingData);
    }
  }
}
