/**
 The two pure pieces of the browser controller (public/scripts.js): the
 filter `uploadFiles` applies before sending anything, which also accepts
 files by extension and is therefore looser than the server's, and the
 choice of icon from a file name.
 */
module Client {
  import opened Common

  /** A `File` picked in the browser: its name, its `type` (possibly empty) and its size. */
  datatype BrowserFile = BrowserFile(name: string, mimeType: string, size: nat)

  /** The lower-cased name ends in `.xlsx`, `.xls` or `.csv`. */
  predicate HasValidExtension(name: string) {
    var lower := Lower(name);
    EndsWith(lower, ".xlsx") || EndsWith(lower, ".xls") || EndsWith(lower, ".csv")
  }

  /** `(hasValidType || hasValidExtension) && validSize`. */
  predicate ClientAccepts(f: BrowserFile) {
    (AllowedType(f.mimeType) || HasValidExtension(f.name)) && f.size <= MaxUploadBytes
  }

  /** `a` is `b` with some elements left out, the rest in their original order. */
  predicate IsSubsequence<T(==)>(a: seq<T>, b: seq<T>)
    decreases |b|
  {
    |a| == 0 || (|b| > 0 && ((a[0] == b[0] && IsSubsequence(a[1..], b[1..])) || IsSubsequence(a, b[1..])))
  }

  /** `files.filter(...)`: every copy of an accepted file is kept, every other file dropped,
      and the order is kept. */
  function ValidFiles(files: seq<BrowserFile>): (valid: seq<BrowserFile>)
    ensures forall f :: f in valid ==> ClientAccepts(f)
    ensures forall f :: f in files && ClientAccepts(f) ==> f in valid
    ensures forall f :: multiset(valid)[f] == (if ClientAccepts(f) then multiset(files)[f] else 0)
    ensures IsSubsequence(valid, files)
    decreases |files|
  {
    if |files| == 0 then []
    else
      var rest := ValidFiles(files[1..]);
      assert files == [files[0]] + files[1..];
      assert multiset(files) == multiset{files[0]} + multiset(files[1..]);
      if ClientAccepts(files[0]) then
        assert ([files[0]] + rest)[1..] == rest;
        assert multiset([files[0]] + rest) == multiset{files[0]} + multiset(rest);
        [files[0]] + rest
      else rest
  }

  /** What `uploadFiles` does with a selection: nothing, a warning that nothing is valid, or
      one upload request, preceded by a warning with the skipped count when files were dropped. */
  datatype Plan =
    | Ignore
    | WarnNoValid
    | Send(files: seq<BrowserFile>, skippedWarning: Option<nat>, uploader: string)

  function PlanUpload(selection: Option<seq<BrowserFile>>): (p: Plan)
    ensures selection.None? || |selection.value| == 0 <==> p == Ignore
    ensures p == WarnNoValid <==>
              selection.Some? && |selection.value| > 0 && forall f :: f in selection.value ==> !ClientAccepts(f)
    ensures p.Send? ==>
              && p.files == ValidFiles(selection.value)
              && |p.files| > 0
              && p.uploader == "Sales User"
              && (p.skippedWarning.Some? <==> |p.files| < |selection.value|)
              && (p.skippedWarning.Some? ==> p.skippedWarning.value == |selection.value| - |p.files|)
  {
    if selection.None? || |selection.value| == 0 then Ignore
    else
      var files := selection.value;
      var valid := ValidFiles(files);
      if |valid| == 0 then
        assert forall f :: f in files ==> !ClientAccepts(f);
        WarnNoValid
      else
        assert valid[0] in files by { SubsequenceMembers(valid, files); }
        SubsequenceLength(valid, files);
        Send(valid, if |valid| < |files| then Some(|files| - |valid|) else None, "Sales User")
  }

  lemma {:induction false} SubsequenceMembers<T>(a: seq<T>, b: seq<T>)
    requires IsSubsequence(a, b)
    ensures forall x :: x in a ==> x in b
    decreases |b|
  {
    if |a| > 0 {
      if a[0] == b[0] && IsSubsequence(a[1..], b[1..]) {
        SubsequenceMembers(a[1..], b[1..]);
        forall x | x in a ensures x in b {
          if x != a[0] {
            assert x in a[1..];
          }
        }
      } else {
        SubsequenceMembers(a, b[1..]);
      }
    }
  }

  lemma {:induction false} SubsequenceLength<T>(a: seq<T>, b: seq<T>)
    requires IsSubsequence(a, b)
    ensures |a| <= |b|
    decreases |b|
  {
    if |a| > 0 {
      if a[0] == b[0] && IsSubsequence(a[1..], b[1..]) {
        SubsequenceLength(a[1..], b[1..]);
      } else {
        SubsequenceLength(a, b[1..]);
      }
    }
  }

  /* ---------- Icons ---------- */

  const ExcelIcon := "fas fa-file-excel"
  const CsvIcon := "fas fa-file-csv"
  const GenericIcon := "fas fa-file"

  /** `s.split('.').pop()`: the longest suffix of `s` without a dot. */
  function LastSegment(s: string): (ext: string)
    ensures '.' !in ext
    ensures EndsWith(s, ext)
    ensures |ext| < |s| ==> s[|s| - |ext| - 1] == '.'
    decreases |s|
  {
    if |s| == 0 || s[|s| - 1] == '.' then ""
    else
      var init := s[..|s| - 1];
      var ext := LastSegment(init);
      assert s[|s| - |ext| - 1..] == init[|init| - |ext|..] + [s[|s| - 1]];
      ext + [s[|s| - 1]]
  }

  /** `filename.toLowerCase().split('.').pop()`. */
  function Extension(name: string): string {
    LastSegment(Lower(name))
  }

  function FileIcon(name: string): string {
    var ext := Extension(name);
    if ext == "xlsx" || ext == "xls" then ExcelIcon
    else if ext == "csv" then CsvIcon
    else GenericIcon
  }

  /** A dot-free `e` is the last segment exactly when `s` is `e` or ends in `.` followed by `e`. */
  lemma LastSegmentIs(s: string, e: string)
    requires '.' !in e
    ensures LastSegment(s) == e <==> s == e || EndsWith(s, "." + e)
  {
    var ext := LastSegment(s);
    if EndsWith(s, "." + e) {
      assert s[|s| - |e| - 1] == ("." + e)[0];
      assert s[|s| - |e|..] == e;
    }
  }

  /** For a name that contains a dot, the icon and the extension check agree: the excel icon
      exactly for names ending in `.xlsx` or `.xls`, the csv icon exactly for `.csv`. */
  lemma IconAgreesWithExtensionCheck(name: string)
    requires '.' in name
    ensures FileIcon(name) == ExcelIcon <==> EndsWith(Lower(name), ".xlsx") || EndsWith(Lower(name), ".xls")
    ensures FileIcon(name) == CsvIcon <==> EndsWith(Lower(name), ".csv")
    ensures FileIcon(name) == GenericIcon <==> !HasValidExtension(name)
  {
    var lower := Lower(name);
    var k :| 0 <= k < |name| && name[k] == '.';
    assert lower[k] == '.';
    assert lower != "xlsx" && lower != "xls" && lower != "csv";
    var ext := Extension(name);
    assert ext == LastSegment(lower);
    assert "." + "xlsx" == ".xlsx" && "." + "xls" == ".xls" && "." + "csv" == ".csv";
    LastSegmentIs(lower, "xlsx");
    LastSegmentIs(lower, "xls");
    LastSegmentIs(lower, "csv");
    assert ExcelIcon != CsvIcon && ExcelIcon != GenericIcon && CsvIcon != GenericIcon;
  }

  /** A name without a dot is its own extension: `xlsx` gets the excel icon although the
      upload filter, which wants `.xlsx`, does not accept it by name. */
  lemma DotlessNameIsItsOwnExtension()
    ensures FileIcon("xlsx") == ExcelIcon
    ensures !HasValidExtension("xlsx")
  {
    var lower := Lower("xlsx");
    assert lower == "xlsx";
    LastSegmentIs(lower, "xlsx");
    assert !EndsWith(lower, ".xlsx");
    assert lower[0] != '.';
  }
}
