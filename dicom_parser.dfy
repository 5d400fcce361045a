/** The DICOM metadata reader of the agent: attributes of a dataset are copied as strings, and the DA
    (`YYYYMMDD`) and TM (`HHMMSS.FFFFFF`) value representations of section 6.2 of DICOM PS3.5 are
    rewritten as `YYYY-MM-DD` and `HH:MM:SS`. */
module DicomParser {
  import opened Wrappers
  import opened Text
  import opened Clock

  /** A dataset as seen through `getattr`: a keyword maps to its value's `str()`, or to `None` when the
      attribute is present with no value; a keyword that is not a key is absent. */
  type Dataset = map<string, Option<string>>

  /** `_get_tag`: the attribute's string when it exists and is not None. */
  function GetTag(ds: Dataset, keyword: string): (r: Option<string>)
    ensures r.Some? <==> keyword in ds && ds[keyword].Some?
    ensures r.Some? ==> r.value == ds[keyword].value
  {
    if keyword in ds then ds[keyword] else None
  }

  /** `_parse_date`: a DA value of at least 8 characters as `YYYY-MM-DD`; nothing for a missing, empty or
      shorter one. Characters after the eighth are ignored. */
  function ParseDate(date: Option<string>): (r: Option<string>)
    ensures r.None? <==> date.None? || |date.value| < 8
    ensures r.Some? ==> var s := date.value;
      && |r.value| == 10 && r.value[4] == '-' && r.value[7] == '-'
      && r.value[..4] == s[..4] && r.value[5..7] == s[4..6] && r.value[8..] == s[6..8]
  {
    if date.None? || |date.value| < 8 then None
    else
      var s := date.value;
      Some(s[0..4] + "-" + s[4..6] + "-" + s[6..8])
  }

  /** `_parse_time`: a TM value of at least 6 characters as `HH:MM:SS`; nothing for a missing, empty or
      shorter one. Fractional seconds are dropped. */
  function ParseTime(time: Option<string>): (r: Option<string>)
    ensures r.None? <==> time.None? || |time.value| < 6
    ensures r.Some? ==> var s := time.value;
      && |r.value| == 8 && r.value[2] == ':' && r.value[5] == ':'
      && r.value[..2] == s[..2] && r.value[3..5] == s[2..4] && r.value[6..] == s[4..6]
  {
    if time.None? || |time.value| < 6 then None
    else
      var s := time.value;
      Some(s[0..2] + ":" + s[2..4] + ":" + s[4..6])
  }

  /** Removing the dashes undoes `ParseDate`: the result carries the date's first eight characters and
      nothing else, so two dates agree on it exactly when their first eight characters agree. */
  lemma ParseDateFirstEight(a: string, b: string)
    requires |a| >= 8 && |b| >= 8
    ensures var r := ParseDate(Some(a)).value; r[..4] + r[5..7] + r[8..] == a[..8]
    ensures ParseDate(Some(a)) == ParseDate(Some(b)) <==> a[..8] == b[..8]
  {
    var r := ParseDate(Some(a)).value;
    assert r[..4] + r[5..7] + r[8..] == a[..8];
    var q := ParseDate(Some(b)).value;
    if r == q {
      assert q[..4] + q[5..7] + q[8..] == b[..8];
    }
    if a[..8] == b[..8] {
      assert a[0..4] == b[0..4] && a[4..6] == b[4..6] && a[6..8] == b[6..8];
    }
  }

  /** Removing the colons undoes `ParseTime`: the result carries the time's first six characters and
      nothing else, so a fraction of a second never changes it. */
  lemma ParseTimeFirstSix(a: string, b: string)
    requires |a| >= 6 && |b| >= 6
    ensures var r := ParseTime(Some(a)).value; r[..2] + r[3..5] + r[6..] == a[..6]
    ensures ParseTime(Some(a)) == ParseTime(Some(b)) <==> a[..6] == b[..6]
  {
    var r := ParseTime(Some(a)).value;
    assert r[..2] + r[3..5] + r[6..] == a[..6];
    var q := ParseTime(Some(b)).value;
    if r == q {
      assert q[..2] + q[3..5] + q[6..] == b[..6];
    }
    if a[..6] == b[..6] {
      assert a[0..2] == b[0..2] && a[2..4] == b[2..4] && a[4..6] == b[4..6];
    }
  }

  /** The DA value of a date is read as the date part of that date's ISO form. */
  lemma DateAsIsoDate(t: DateTime)
    requires Valid(t)
    ensures ParseDate(Some(ZeroPad(t.year, 4) + ZeroPad(t.month, 2) + ZeroPad(t.day, 2)))
      == Some(IsoFormat(t)[..10])
  {
    ZeroPadWidth(t.year, 4);
    ZeroPadWidth(t.month, 2);
    ZeroPadWidth(t.day, 2);
    var s := ZeroPad(t.year, 4) + ZeroPad(t.month, 2) + ZeroPad(t.day, 2);
    assert s[0..4] == ZeroPad(t.year, 4) && s[4..6] == ZeroPad(t.month, 2) && s[6..8] == ZeroPad(t.day, 2);
    var iso := IsoFormat(t);
    assert iso[..10] == ZeroPad(t.year, 4) + "-" + ZeroPad(t.month, 2) + "-" + ZeroPad(t.day, 2);
  }

  /** The TM value of a time, with or without a fraction, is read as the time part of the ISO form. */
  lemma TimeAsIsoTime(t: DateTime, fraction: string)
    requires Valid(t)
    ensures ParseTime(Some(ZeroPad(t.hour, 2) + ZeroPad(t.minute, 2) + ZeroPad(t.second, 2) + fraction))
      == Some(IsoFormat(t)[11..19])
  {
    ZeroPadWidth(t.year, 4);
    ZeroPadWidth(t.month, 2);
    ZeroPadWidth(t.day, 2);
    ZeroPadWidth(t.hour, 2);
    ZeroPadWidth(t.minute, 2);
    ZeroPadWidth(t.second, 2);
    var s := ZeroPad(t.hour, 2) + ZeroPad(t.minute, 2) + ZeroPad(t.second, 2) + fraction;
    assert s[0..2] == ZeroPad(t.hour, 2) && s[2..4] == ZeroPad(t.minute, 2) && s[4..6] == ZeroPad(t.second, 2);
    var iso := IsoFormat(t);
    assert iso[11..19] == ZeroPad(t.hour, 2) + ":" + ZeroPad(t.minute, 2) + ":" + ZeroPad(t.second, 2);
  }

  /** The metadata `parse` extracts. */
  datatype Study = Study(
    patientId: Option<string>, patientName: Option<string>, patientBirthDate: Option<string>,
    patientSex: Option<string>, studyInstanceUid: Option<string>, studyDate: Option<string>,
    studyTime: Option<string>, studyDescription: Option<string>, seriesInstanceUid: Option<string>,
    seriesNumber: Option<string>, seriesDescription: Option<string>, modality: Option<string>,
    sopInstanceUid: Option<string>, institutionName: Option<string>, manufacturer: Option<string>,
    manufacturerModel: Option<string>, rows: Option<string>, columns: Option<string>, timestamp: string)

  /** `parse` on a dataset already read: the two dates and the study time are reformatted, every other
      field is the attribute's string, and the timestamp is the clock reading. */
  function Parse(ds: Dataset, now: DateTime): (r: Study)
    requires Valid(now)
    ensures r.patientBirthDate == ParseDate(GetTag(ds, "PatientBirthDate"))
    ensures r.studyDate == ParseDate(GetTag(ds, "StudyDate"))
    ensures r.studyTime == ParseTime(GetTag(ds, "StudyTime"))
    ensures r.patientId == GetTag(ds, "PatientID") && r.patientName == GetTag(ds, "PatientName")
    ensures r.patientSex == GetTag(ds, "PatientSex") && r.modality == GetTag(ds, "Modality")
    ensures r.studyInstanceUid == GetTag(ds, "StudyInstanceUID")
    ensures r.studyDescription == GetTag(ds, "StudyDescription")
    ensures r.seriesInstanceUid == GetTag(ds, "SeriesInstanceUID")
    ensures r.seriesNumber == GetTag(ds, "SeriesNumber")
    ensures r.seriesDescription == GetTag(ds, "SeriesDescription")
    ensures r.sopInstanceUid == GetTag(ds, "SOPInstanceUID")
    ensures r.institutionName == GetTag(ds, "InstitutionName")
    ensures r.manufacturer == GetTag(ds, "Manufacturer")
    ensures r.manufacturerModel == GetTag(ds, "ManufacturerModelName")
    ensures r.rows == GetTag(ds, "Rows") && r.columns == GetTag(ds, "Columns")
    ensures r.timestamp == IsoFormat(now)
  {
    Study(
      GetTag(ds, "PatientID"), GetTag(ds, "PatientName"), ParseDate(GetTag(ds, "PatientBirthDate")),
      GetTag(ds, "PatientSex"), GetTag(ds, "StudyInstanceUID"), ParseDate(GetTag(ds, "StudyDate")),
      ParseTime(GetTag(ds, "StudyTime")), GetTag(ds, "StudyDescription"), GetTag(ds, "SeriesInstanceUID"),
      GetTag(ds, "SeriesNumber"), GetTag(ds, "SeriesDescription"), GetTag(ds, "Modality"),
      GetTag(ds, "SOPInstanceUID"), GetTag(ds, "InstitutionName"), GetTag(ds, "Manufacturer"),
      GetTag(ds, "ManufacturerModelName"), GetTag(ds, "Rows"), GetTag(ds, "Columns"), IsoFormat(now))
  }
}
