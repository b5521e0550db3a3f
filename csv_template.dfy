/**
 * The student-import CSV template: its header row, three sample rows, and
 * the file made of them, checked against what the importer demands of a
 * file.
 */
module CsvTemplate {
  import opened Common
  import opened StudentManagement

  const TemplateHeaders: seq<string> := [
    "firstName", "lastName", "admissionNo", "class", "section", "email", "phone",
    "gender", "dob", "address", "city", "state", "zipCode", "status"]

  /** The sample rows value by value, in header order. */
  const SampleFields: seq<seq<string>> := [
    ["John", "Doe", "ADM2024101", "9", "A", "john.doe@school.edu", "+1 234-567-8901",
     "Male", "2010-03-15", "123 Main St", "Springfield", "IL", "62701", "Active"],
    ["Jane", "Smith", "ADM2024102", "10", "B", "jane.smith@school.edu", "+1 234-567-8902",
     "Female", "2009-07-22", "456 Oak Ave", "Springfield", "IL", "62702", "Active"],
    ["Michael", "Brown", "ADM2024103", "9", "A", "michael.brown@school.edu", "+1 234-567-8903",
     "Male", "2010-01-10", "789 Pine Rd", "Springfield", "IL", "62703", "Active"]]

  /** A line of the file: the values joined by commas. */
  function Line(values: seq<string>): string {
    Join(values, ",")
  }

  /** `CSV_SAMPLE_DATA`: each sample row as its line. */
  function Lines(rows: seq<seq<string>>): (r: seq<string>)
    ensures |r| == |rows| && forall i | 0 <= i < |rows| :: r[i] == Line(rows[i])
  {
    if rows == [] then [] else [Line(rows[0])] + Lines(rows[1..])
  }

  /** `[headers.join(','), ...samples].join('\n')`. */
  function Content(headers: seq<string>, rows: seq<seq<string>>): string {
    Join([Line(headers)] + Lines(rows), "\n")
  }

  /** A value that survives splitting on commas and lines and trimming unchanged. */
  predicate Clean(s: string) {
    s != [] && ',' !in s && '\n' !in s && !IsSpace(s[0]) && !IsSpace(s[|s| - 1])
  }

  predicate AllClean(parts: seq<string>) {
    forall k | 0 <= k < |parts| :: Clean(parts[k])
  }

  /** Rows of clean values, each as wide as the header. */
  predicate WellFormedTemplate(headers: seq<string>, rows: seq<seq<string>>) {
    |headers| >= 1 && AllClean(headers)
    && forall i | 0 <= i < |rows| :: |rows[i]| == |headers| && AllClean(rows[i])
  }

  /** The template's header list holds every column the importer requires. */
  lemma TemplateHasRequiredHeaders()
    ensures forall h | h in RequiredHeaders :: h in TemplateHeaders
    ensures MissingHeaders(RequiredHeaders, TemplateHeaders) == []
  {
    assert RequiredHeaders == TemplateHeaders[..9];
    NoneMissing(RequiredHeaders, TemplateHeaders);
  }

  lemma {:induction false} NoneMissing(required: seq<string>, headers: seq<string>)
    requires forall h | h in required :: h in headers
    ensures MissingHeaders(required, headers) == []
  {
    if required != [] {
      NoneMissing(required[1..], headers);
    }
  }

  /** The template's headers and its three sample rows of fourteen values meet that shape. */
  lemma TemplateWellFormed()
    ensures |TemplateHeaders| == 14 && |SampleFields| == 3
    ensures WellFormedTemplate(TemplateHeaders, SampleFields)
  {
    HeadersClean();
    FirstRowClean();
    SecondRowClean();
    ThirdRowClean();
  }

  /** Values lo to hi - 1 are clean. */
  predicate CleanFrom(parts: seq<string>, lo: nat, hi: nat) {
    forall k | lo <= k < hi && k < |parts| :: Clean(parts[k])
  }

  lemma HeadersClean()
    ensures AllClean(TemplateHeaders)
  {
    HeadersCleanA();
    HeadersCleanB();
  }

  lemma HeadersCleanA() ensures CleanFrom(TemplateHeaders, 0, 7) {}
  lemma HeadersCleanB() ensures CleanFrom(TemplateHeaders, 7, 14) {}

  lemma FirstRowClean()
    ensures |SampleFields[0]| == 14 && AllClean(SampleFields[0])
  {
    FirstRowA();
    FirstRowB();
    FirstRowC();
    FirstRowD();
    FirstRowE();
  }

  lemma FirstRowA() ensures CleanFrom(SampleFields[0], 0, 5) {}
  lemma FirstRowB() ensures CleanFrom(SampleFields[0], 5, 6) {}
  lemma FirstRowC() ensures CleanFrom(SampleFields[0], 6, 7) {}
  lemma FirstRowD() ensures CleanFrom(SampleFields[0], 7, 10) {}
  lemma FirstRowE() ensures CleanFrom(SampleFields[0], 10, 14) {}

  lemma SecondRowClean()
    ensures |SampleFields[1]| == 14 && AllClean(SampleFields[1])
  {
    SecondRowA();
    SecondRowB();
    SecondRowC();
    SecondRowD();
    SecondRowE();
  }

  lemma SecondRowA() ensures CleanFrom(SampleFields[1], 0, 5) {}
  lemma SecondRowB() ensures CleanFrom(SampleFields[1], 5, 6) {}
  lemma SecondRowC() ensures CleanFrom(SampleFields[1], 6, 7) {}
  lemma SecondRowD() ensures CleanFrom(SampleFields[1], 7, 10) {}
  lemma SecondRowE() ensures CleanFrom(SampleFields[1], 10, 14) {}

  lemma ThirdRowClean()
    ensures |SampleFields[2]| == 14 && AllClean(SampleFields[2])
  {
    ThirdRowA();
    ThirdRowB();
    ThirdRowC();
    ThirdRowD();
    ThirdRowE();
  }

  lemma ThirdRowA() ensures CleanFrom(SampleFields[2], 0, 5) {}
  lemma ThirdRowB() ensures CleanFrom(SampleFields[2], 5, 6) {}
  lemma ThirdRowC() ensures CleanFrom(SampleFields[2], 6, 7) {}
  lemma ThirdRowD() ensures CleanFrom(SampleFields[2], 7, 10) {}
  lemma ThirdRowE() ensures CleanFrom(SampleFields[2], 10, 14) {}

  /** Trimming leaves clean values alone. */
  lemma TrimAllClean(parts: seq<string>)
    requires AllClean(parts)
    ensures TrimAll(parts) == parts
  {
    forall k | 0 <= k < |parts|
      ensures Trim(parts[k]) == parts[k]
    {
      TrimBlankFree(parts[k]);
    }
  }

  /** Joining values that hold no given character gives a string without it. */
  lemma {:induction false} JoinFree(parts: seq<string>, sep: string, c: char)
    requires c !in sep && forall k | 0 <= k < |parts| :: c !in parts[k]
    ensures c !in Join(parts, sep)
  {
    if |parts| > 1 {
      JoinFree(parts[1..], sep, c);
    }
  }

  /** The importer reads a line of clean values back as exactly those values. */
  lemma LineReadsBack(values: seq<string>)
    requires |values| >= 1 && AllClean(values)
    ensures TrimAll(Split(Line(values), ',')) == values
  {
    SplitJoin(values, ',');
    TrimAllClean(values);
  }

  /** Every sample line has as many values as the header line, so no row is a column-count mismatch. */
  lemma SampleRowsFit(headers: seq<string>, rows: seq<seq<string>>, i: nat)
    requires WellFormedTemplate(headers, rows) && i < |rows|
    ensures TrimAll(Split(Lines(rows)[i], ',')) == rows[i]
    ensures |TrimAll(Split(Lines(rows)[i], ','))| == |TrimAll(Split(Line(headers), ','))|
  {
    LineReadsBack(rows[i]);
    LineReadsBack(headers);
  }

  /** A line of clean values has no line break and is not blank. */
  lemma LineClean(values: seq<string>)
    requires |values| >= 1 && AllClean(values)
    ensures '\n' !in Line(values) && Trim(Line(values)) != []
  {
    JoinFree(values, ",", '\n');
    var line := Line(values);
    JoinStarts(values, ",");
    TrimEmptyIffBlank(line);
    assert !IsSpace(line[0]);
  }

  /** A join starts with its first piece. */
  lemma JoinStarts(parts: seq<string>, sep: string)
    requires |parts| >= 1
    ensures StartsWith(Join(parts, sep), parts[0])
  {
  }

  lemma {:induction false} NonBlankKeepsAll(lines: seq<string>)
    requires forall k | 0 <= k < |lines| :: Trim(lines[k]) != []
    ensures NonBlankLines(lines) == lines
  {
    if lines != [] {
      NonBlankKeepsAll(lines[1..]);
    }
  }

  /** The file splits back into the header line and one line per sample row. */
  lemma ContentLines(headers: seq<string>, rows: seq<seq<string>>)
    requires WellFormedTemplate(headers, rows)
    ensures NonBlankLines(Split(Content(headers, rows), '\n')) == [Line(headers)] + Lines(rows)
    ensures |NonBlankLines(Split(Content(headers, rows), '\n'))| == 1 + |rows|
  {
    var lines := [Line(headers)] + Lines(rows);
    forall k | 0 <= k < |lines|
      ensures '\n' !in lines[k] && Trim(lines[k]) != []
    {
      if k == 0 { LineClean(headers); } else { LineClean(rows[k - 1]); }
    }
    SplitJoin(lines, '\n');
    NonBlankKeepsAll(lines);
  }

  /** The sample admission numbers differ from one another. */
  lemma SampleAdmissionNosDistinct()
    ensures forall i, j | 0 <= i < j < 3 :: SampleFields[i][2] != SampleFields[j][2]
  {
  }
}
