/**
 * How the manager dashboard shows a stored violation row. Older versions of
 * the program stored the image path in the device column; a row whose
 * device column looks like a path (a `C:\` drive prefix or the `violation_`
 * marker) is shown with the columns shifted back and the current login as
 * employee. The photo status is checked against the file system at display
 * time instead of trusting the row.
 */
module Dashboard {
  import opened Wrappers
  import Evidence
  import Pipeline

  /** A row as read back from the table: any text column may be NULL. */
  datatype StoredRow = StoredRow(timestamp: Option<string>, employee: Option<string>,
                                 device: Option<string>, imagePath: Option<string>)

  datatype PhotoStatus = PhotoSaved | PhotoMissing

  /** What one line of the dashboard table shows. */
  datatype DisplayRow = DisplayRow(timestamp: Option<string>, employee: Option<string>,
                                   device: Option<string>, photo: string, status: PhotoStatus)

  const DrivePrefix := "C:\\"
  const FallbackEmployee := "User"

  /** `sub` occurs in `s` starting at index `i`. */
  predicate OccursAt(s: string, sub: string, i: int)
  {
    0 <= i && i + |sub| <= |s| && s[i..i + |sub|] == sub
  }

  /** `sub` occurs in `s` (Python's `sub in s`). */
  predicate Contains(s: string, sub: string)
  {
    exists i | 0 <= i <= |s| :: OccursAt(s, sub, i)
  }

  /** Python truthiness of a nullable text column. */
  predicate Truthy(v: Option<string>)
  {
    v.Some? && v.value != ""
  }

  /** Python's `str()` of a nullable text column. */
  function Text(v: Option<string>): string
  {
    match v
    case None => "None"
    case Some(s) => s
  }

  /** `os.path.exists`: the empty path never exists. */
  predicate PathExists(files: set<string>, p: string)
  {
    p != "" && p in files
  }

  /** A legacy row: its device column holds an image path. */
  predicate IsLegacy(r: StoredRow)
  {
    Truthy(r.device) && (Contains(r.device.value, DrivePrefix) || Contains(r.device.value, Evidence.EvidencePrefix))
  }

  /**
   * The displayed line for a stored row, given the login name (None when the
   * lookup fails) and the files that exist at display time.
   */
  function Display(r: StoredRow, login: Option<string>, files: set<string>): (d: DisplayRow)
    ensures d.timestamp == r.timestamp
    ensures d.status == PhotoSaved <==> PathExists(files, d.photo)
  {
    var photo := if IsLegacy(r) then r.device.value else r.imagePath.GetOr("");
    var status := if PathExists(files, photo) then PhotoSaved else PhotoMissing;
    if IsLegacy(r) then DisplayRow(r.timestamp, Some(login.GetOr(FallbackEmployee)), Some(Text(r.employee)), photo, status)
    else DisplayRow(r.timestamp, r.employee, r.device, photo, status)
  }

  /** The row the table returns for a row the current program recorded. */
  function Stored(row: Pipeline.Row): StoredRow
  {
    StoredRow(Some(row.timestamp), Some(row.employee), Some(row.objectDetected), Some(row.imagePath))
  }

  lemma NotContainedWithoutFirst(s: string, sub: string)
    requires sub != []
    requires forall k :: 0 <= k < |s| ==> s[k] != sub[0]
    ensures !Contains(s, sub)
  {
    forall i | 0 <= i <= |s|
      ensures !OccursAt(s, sub, i)
    {
      if i + |sub| <= |s| {
        assert s[i..i + |sub|][0] == s[i];
      }
    }
  }

  /**
   * A row recorded by the pipeline is shown as stored: its employee, the
   * "Mobile Phone" label, its own image path, and the photo status of that
   * path. The repair never fires on it, whoever the employee is.
   */
  lemma RecordedRowShownAsIs(row: Pipeline.Row, login: Option<string>, files: set<string>)
    requires row.objectDetected == Pipeline.ObjectLabel
    ensures var d := Display(Stored(row), login, files);
      && d.employee == Some(row.employee)
      && d.device == Some(Pipeline.ObjectLabel)
      && d.photo == row.imagePath
      && (d.status == PhotoSaved <==> PathExists(files, row.imagePath))
  {
    NotContainedWithoutFirst(Pipeline.ObjectLabel, DrivePrefix);
    NotContainedWithoutFirst(Pipeline.ObjectLabel, Evidence.EvidencePrefix);
    assert !IsLegacy(Stored(row));
  }

  /**
   * A legacy row whose device column holds an evidence path is shown with
   * that path as photo, the employee column (which held the device label)
   * as device, and the login (or "User") as employee.
   */
  lemma LegacyEvidenceRowRepaired(r: StoredRow, dir: string, t: Evidence.DateTime,
                                  login: Option<string>, files: set<string>)
    requires Evidence.Valid(t)
    requires r.device == Some(Evidence.EvidencePath(dir, t))
    ensures var d := Display(r, login, files);
      && d.photo == Evidence.EvidencePath(dir, t)
      && d.device == Some(Text(r.employee))
      && d.employee == Some(login.GetOr(FallbackEmployee))
      && (d.status == PhotoSaved <==> Evidence.EvidencePath(dir, t) in files)
  {
    var p := Evidence.EvidencePath(dir, t);
    Evidence.EvidencePathMarked(dir, t);
    var i := |p| - 29;
    assert OccursAt(p, Evidence.EvidencePrefix, i);
    assert IsLegacy(r);
  }
}
