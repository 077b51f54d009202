/** The names `download_sec_filings` saves filings under, read back by the
    training-data preparation, which takes the accession number, the form
    and the date from the first three `_`-separated parts of the stem. */
module SecFileNames {
  import opened Common
  import opened SecFilings
  import opened TrainingData

  /** The name a filing is saved under parses back, in the training-data
      preparation, into the accession number without dashes, the form and
      the date, when none of them holds an underscore and the form holds no
      slash. */
  lemma FileNameRoundTrip(accession: string, form: string, date: string)
    requires '_' !in accession && '_' !in form && '/' !in form && '_' !in date
    ensures ParseStem(Stem(FilingFileName(accession, form, date))) ==
            Some(FilingName(RemoveChar(accession, '-'), form, date))
  {
    var a := RemoveChar(accession, '-');
    assert ReplaceChar(form, '/', '_') == form;
    var base := a + "_" + form + "_" + date;
    assert FilingFileName(accession, form, date) == base + ".txt";
    assert '_' !in a;
    StemOfTxt(base);
    ParseJoined(a, form, date);
  }

  /** The form types hold neither an underscore nor a slash. */
  lemma FormTypesPlain(form: string)
    requires form in FORM_TYPES
    ensures '_' !in form && '/' !in form
  {
  }

  /** So every file the download saves, whose accession number and date
      hold no underscore, is read back with its own fields. */
  lemma SavedNameParses(accession: string, form: string, date: string)
    requires form in FORM_TYPES && '_' !in accession && '_' !in date
    ensures ParseStem(Stem(FilingFileName(accession, form, date))) ==
            Some(FilingName(RemoveChar(accession, '-'), form, date))
  {
    FormTypesPlain(form);
    FileNameRoundTrip(accession, form, date);
  }
}
