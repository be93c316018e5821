/**
 * The name under which an image is stored inside a job's archive,
 * derived from the image's timestamp and its file's extension:
 * `{year}/{MMM}/{dd}/{dd} {MMM} {year} {hh.mmtt}` followed by the extension.
 */
module EntryNames {
  import opened Dates
  import opened Files

  /** `{year}/{MMM}/{dd}/` */
  function Folders(d: Timestamp): string {
    DecimalText(d.year) + "/" + MonthAbbreviation(d.month) + "/" + TwoDigits(d.day) + "/"
  }

  /** `{dd} {MMM} {year} `, the part of the file stem before the time label. */
  function DatePrefix(d: Timestamp): string {
    TwoDigits(d.day) + " " + MonthAbbreviation(d.month) + " " + DecimalText(d.year) + " "
  }

  /** `{dd} {MMM} {year} {hh.mmtt}` */
  function FileStem(d: Timestamp): string {
    DatePrefix(d) + TimeLabel(d)
  }

  /** The date folders and the file stem, followed by `suffix`. */
  function NameWithSuffix(d: Timestamp, suffix: string): (r: string)
    ensures |r| == |Folders(d)| + |FileStem(d)| + |suffix|
    ensures r[..|Folders(d)|] == Folders(d)
    ensures r[|r| - |suffix|..] == suffix
  {
    Folders(d) + FileStem(d) + suffix
  }

  /** The name as the source writes it: the stem, a period, then the extension. Because
      GetExtension already starts with '.', the name gets two periods before the extension. */
  function EntryNameAsWritten(d: Timestamp, path: string): (r: string)
    ensures |r| == |Folders(d)| + |FileStem(d)| + 1 + |GetExtension(path)|
    ensures r[..|Folders(d)|] == Folders(d)
    ensures r[|r| - |GetExtension(path)| - 1..] == "." + GetExtension(path)
  {
    NameWithSuffix(d, "." + GetExtension(path))
  }

  /** The name with a single period before the extension, as the format evidently intends. */
  function EntryName(d: Timestamp, path: string): (r: string)
    ensures |r| == |Folders(d)| + |FileStem(d)| + |GetExtension(path)|
    ensures r[..|Folders(d)|] == Folders(d)
    ensures r[|r| - |GetExtension(path)|..] == GetExtension(path)
  {
    NameWithSuffix(d, GetExtension(path))
  }

  /** Two timestamps that agree down to the minute: all the name can show. */
  predicate SameMinute(a: Timestamp, b: Timestamp) {
    a.year == b.year && a.month == b.month && a.day == b.day && a.hour == b.hour && a.minute == b.minute
  }

  predicate HasDoublePeriod(s: string) {
    exists i :: 0 <= i < |s| - 1 && s[i] == '.' && s[i + 1] == '.'
  }

  predicate HasNoPeriod(s: string) {
    forall i :: 0 <= i < |s| ==> s[i] != '.'
  }

  lemma MonthAbbreviationIsPlain(month: int)
    requires 1 <= month <= 12
    ensures HasNoPeriod(MonthAbbreviation(month)) && HasNoSlash(MonthAbbreviation(month))
  {
    var s := MonthAbbreviation(month);
    assert s[0] != '.' && s[1] != '.' && s[2] != '.';
    assert s[0] != '/' && s[1] != '/' && s[2] != '/';
  }

  /** Everything before the time label is free of '.' and the folders' last segment is free of '/'. */
  lemma PiecesArePlain(d: Timestamp)
    ensures HasNoPeriod(DecimalText(d.year)) && HasNoSlash(DecimalText(d.year))
    ensures HasNoPeriod(TwoDigits(d.day)) && HasNoSlash(TwoDigits(d.day))
    ensures HasNoPeriod(MonthAbbreviation(d.month)) && HasNoSlash(MonthAbbreviation(d.month))
  {
    MonthAbbreviationIsPlain(d.month);
  }

  /** The time label has one '.', between the hour and the minute digits, and ends in 'M'. */
  lemma TimeLabelShape(d: Timestamp)
    ensures TimeLabel(d)[2] == '.'
    ensures forall i :: 0 <= i < 7 && i != 2 ==> TimeLabel(d)[i] != '.'
    ensures HasNoSlash(TimeLabel(d))
  {
  }

  /** The extension part of a name never holds '/' and, after its first character, no '.'. */
  lemma ExtensionIsPlain(path: string)
    ensures HasNoSlash(GetExtension(path))
    ensures forall j :: 1 <= j < |GetExtension(path)| ==> GetExtension(path)[j] != '.'
  {
    var ext := GetExtension(path);
    if ext != "" {
      assert ext[0] == '.';
    }
  }

  /** A path has at most one extension in the sense of Path.GetExtension. */
  lemma ExtensionUnique(path: string, e: string, f: string)
    requires IsExtensionOf(path, e) && IsExtensionOf(path, f)
    ensures e == f
  {
  }

  /** The source's own name, for any file with an extension, shows ".." before it. */
  lemma AsWrittenDoublesPeriod(d: Timestamp, path: string)
    requires GetExtension(path) != ""
    ensures HasDoublePeriod(EntryNameAsWritten(d, path))
  {
    var ext := GetExtension(path);
    var s := EntryNameAsWritten(d, path);
    var i := |Folders(d) + FileStem(d)|;
    assert s == (Folders(d) + FileStem(d)) + ("." + ext);
    assert s[i] == '.' && s[i + 1] == ext[0] == '.';
  }

  /** A concrete image, "photo.jpg" taken 5 March 2024 at 15:07, under the source's naming. */
  lemma AsWrittenExample()
    ensures GetExtension("photo.jpg") == ".jpg"
    ensures EntryNameAsWritten(DateTime(2024, 3, 5, 15, 7, 0, 0), "photo.jpg")
            == "2024/Mar/05/05 Mar 2024 03.07PM..jpg"
    ensures EntryName(DateTime(2024, 3, 5, 15, 7, 0, 0), "photo.jpg")
            == "2024/Mar/05/05 Mar 2024 03.07PM.jpg"
  {
    var d: Timestamp := DateTime(2024, 3, 5, 15, 7, 0, 0);
    ExampleExtension();
    ExampleFolders();
    ExampleStem();
    var f, g := Folders(d), FileStem(d);
    ExampleJoin(f, g);
    var h := f + g;
    assert EntryNameAsWritten(d, "photo.jpg") == h + ("." + ".jpg") == h + "." + ".jpg";
    assert EntryName(d, "photo.jpg") == h + ".jpg";
    ExampleSuffixes(h);
  }

  lemma ExampleJoin(f: string, g: string)
    requires f == "2024/Mar/05/" && g == "05 Mar 2024 03.07PM"
    ensures f + g == "2024/Mar/05/05 Mar 2024 03.07PM"
  {
  }

  lemma ExampleSuffixes(h: string)
    requires h == "2024/Mar/05/05 Mar 2024 03.07PM"
    ensures h + "." + ".jpg" == "2024/Mar/05/05 Mar 2024 03.07PM..jpg"
    ensures h + ".jpg" == "2024/Mar/05/05 Mar 2024 03.07PM.jpg"
  {
  }

  lemma ExampleFolders()
    ensures Folders(DateTime(2024, 3, 5, 15, 7, 0, 0)) == "2024/Mar/05/"
  {
    ExampleYear();
    assert MonthAbbreviation(3) == "Mar";
    assert TwoDigits(5) == "05";
  }

  lemma ExampleStem()
    ensures FileStem(DateTime(2024, 3, 5, 15, 7, 0, 0)) == "05 Mar 2024 03.07PM"
  {
    ExamplePrefix();
    ExampleTime();
    ExampleStemJoin(DatePrefix(DateTime(2024, 3, 5, 15, 7, 0, 0)), TimeLabel(DateTime(2024, 3, 5, 15, 7, 0, 0)));
  }

  lemma ExampleStemJoin(x: string, y: string)
    requires x == "05 Mar 2024 " && y == "03.07PM"
    ensures x + y == "05 Mar 2024 03.07PM"
  {
  }

  lemma ExamplePrefix()
    ensures DatePrefix(DateTime(2024, 3, 5, 15, 7, 0, 0)) == "05 Mar 2024 "
  {
    ExampleYear();
    assert MonthAbbreviation(3) == "Mar";
    assert TwoDigits(5) == "05";
  }

  lemma ExampleTime()
    ensures TimeLabel(DateTime(2024, 3, 5, 15, 7, 0, 0)) == "03.07PM"
  {
    assert Hour12(15) == 3 && Designator(15) == "PM";
    assert TwoDigits(3) == "03" && TwoDigits(7) == "07";
  }

  lemma ExampleYear()
    ensures DecimalText(2024) == "2024"
  {
    assert DecimalText(2) == "2";
    assert DecimalText(20) == "20";
    assert DecimalText(202) == "202";
  }

  lemma ExampleExtension()
    ensures GetExtension("photo.jpg") == ".jpg"
  {
    var p := "photo.jpg";
    assert p[5] == '.' && p[6] != '.' && p[7] != '.' && p[8] != '.';
    assert ExtensionBefore(p, 6) == p[5..] == ".jpg";
    assert ExtensionBefore(p, 9) == ExtensionBefore(p, 8) == ExtensionBefore(p, 7) == ExtensionBefore(p, 6);
  }

  /** A period-free part, a label of seven characters whose only '.' is its third, and a part
      with no '.' after its first character never join into "..". */
  lemma NoDoublePeriodJoin(p: string, t: string, ext: string)
    requires HasNoPeriod(p)
    requires |t| == 7 && t[3] != '.' && forall i :: 0 <= i < 7 && i != 2 ==> t[i] != '.'
    requires forall j :: 1 <= j < |ext| ==> ext[j] != '.'
    ensures !HasDoublePeriod(p + t + ext)
  {
    var s := p + t + ext;
    forall i | 0 <= i < |s| - 1
      ensures !(s[i] == '.' && s[i + 1] == '.')
    {
      if i < |p| {
        assert s[i] == p[i];
      } else if i < |p| + 7 {
        assert s[i] == t[i - |p|];
        if i == |p| + 2 {
          assert s[i + 1] == t[3];
        }
      } else {
        assert s[i + 1] == ext[i + 1 - |p| - 7];
      }
    }
  }

  lemma NoPeriodJoin(a: string, b: string)
    requires HasNoPeriod(a) && HasNoPeriod(b)
    ensures HasNoPeriod(a + b)
  {
    assert forall i :: 0 <= i < |a + b| ==> (a + b)[i] == if i < |a| then a[i] else b[i - |a|];
  }

  /** The date folders and the date prefix hold no '.'. */
  lemma DatePartsHaveNoPeriod(d: Timestamp)
    ensures HasNoPeriod(Folders(d) + DatePrefix(d))
  {
    var y, m, dd := DecimalText(d.year), MonthAbbreviation(d.month), TwoDigits(d.day);
    PiecesArePlain(d);
    NoPeriodJoin(y, "/");
    NoPeriodJoin(y + "/", m);
    NoPeriodJoin(y + "/" + m, "/");
    NoPeriodJoin(y + "/" + m + "/", dd);
    NoPeriodJoin(y + "/" + m + "/" + dd, "/");
    NoPeriodJoin(dd, " ");
    NoPeriodJoin(dd + " ", m);
    NoPeriodJoin(dd + " " + m, " ");
    NoPeriodJoin(dd + " " + m + " ", y);
    NoPeriodJoin(dd + " " + m + " " + y, " ");
    NoPeriodJoin(Folders(d), DatePrefix(d));
  }

  /** The corrected name never holds two adjacent periods. */
  lemma EntryNameHasNoDoublePeriod(d: Timestamp, path: string)
    ensures !HasDoublePeriod(EntryName(d, path))
  {
    DatePartsHaveNoPeriod(d);
    TimeLabelShape(d);
    ExtensionIsPlain(path);
    EntryNameParts(d, GetExtension(path));
    NoDoublePeriodJoin(Folders(d) + DatePrefix(d), TimeLabel(d), GetExtension(path));
  }

  lemma EntryNameParts(d: Timestamp, suffix: string)
    ensures NameWithSuffix(d, suffix) == (Folders(d) + DatePrefix(d)) + TimeLabel(d) + suffix
  {
  }

  /** A name ending in `ext`, a '.' followed by characters that are neither '.' nor '/', reports
      `ext` as its extension. */
  lemma ExtensionOfSuffix(s: string, ext: string)
    requires 2 <= |ext| <= |s| && ext[0] == '.' && s[|s| - |ext|..] == ext
    requires forall j :: 1 <= j < |ext| ==> ext[j] != '.' && ext[j] != '/'
    ensures GetExtension(s) == ext
  {
    assert IsExtensionOf(s, ext);
    ExtensionRulesOutNone(s, ext);
    ExtensionUnique(s, GetExtension(s), ext);
  }

  lemma DropFirstOfSuffix(s: string, x: string)
    requires 1 <= |x| <= |s| && s[|s| - |x|..] == x
    ensures s[|s| - |x| + 1..] == x[1..]
  {
    assert s[|s| - |x| + 1..] == s[|s| - |x|..][1..];
  }

  /** For a source file with an extension, the corrected name keeps it: an archive tool reads
      the same one back. */
  lemma EntryNameKeepsExtension(d: Timestamp, path: string)
    requires GetExtension(path) != ""
    ensures GetExtension(EntryName(d, path)) == GetExtension(path)
  {
    var ext := GetExtension(path);
    ExtensionOfSuffix(EntryName(d, path), ext);
  }

  /** For a source file without an extension, the corrected name reports the minutes and the
      designator of its time label as its extension. */
  lemma EntryNameWithoutExtension(d: Timestamp, path: string)
    requires GetExtension(path) == ""
    ensures GetExtension(EntryName(d, path)) == "." + TwoDigits(d.minute) + Designator(d.hour)
  {
    var s := EntryName(d, path);
    var t := TimeLabel(d);
    TimeLabelShape(d);
    assert s == Folders(d) + DatePrefix(d) + t;
    assert t[2..] == "." + TwoDigits(d.minute) + Designator(d.hour);
    assert s[|s| - 5..] == t[2..];
    ExtensionOfSuffix(s, t[2..]);
  }

  /** The name as written keeps the extension of a source file that has one: the second period
      starts it. */
  lemma AsWrittenKeepsExtension(d: Timestamp, path: string)
    requires GetExtension(path) != ""
    ensures GetExtension(EntryNameAsWritten(d, path)) == GetExtension(path)
  {
    var ext := GetExtension(path);
    var s := EntryNameAsWritten(d, path);
    DropFirstOfSuffix(s, "." + ext);
    assert ("." + ext)[1..] == ext;
    ExtensionOfSuffix(s, ext);
  }

  /** For a source file without an extension, the name as written ends in '.', so it reports
      no extension. */
  lemma AsWrittenWithoutExtension(d: Timestamp, path: string)
    requires GetExtension(path) == ""
    ensures GetExtension(EntryNameAsWritten(d, path)) == ""
  {
    var s := EntryNameAsWritten(d, path);
    assert s[|s| - 1] == '.';
    assert HasNoExtension(s) by {
      forall k | 0 <= k < |s| - 1 && s[k] == '.'
        ensures exists j :: k < j < |s| && (s[j] == '.' || IsDirectorySeparator(s[j]))
      {
        assert s[|s| - 1] == '.';
      }
    }
  }

  lemma NoSlashJoin(a: string, b: string)
    requires HasNoSlash(a) && HasNoSlash(b)
    ensures HasNoSlash(a + b)
  {
    assert forall i :: 0 <= i < |a + b| ==> (a + b)[i] == if i < |a| then a[i] else b[i - |a|];
  }

  lemma Reassociate(y: string, m: string, dd: string, stem: string, suffix: string)
    ensures y + "/" + m + "/" + dd + "/" + stem + suffix == y + "/" + (m + "/" + (dd + "/" + (stem + suffix)))
  {
  }

  /** A name with a suffix free of '/' is a year / month / day folder hierarchy holding one file. */
  lemma NameSegments(d: Timestamp, suffix: string)
    requires HasNoSlash(suffix)
    ensures Segments(NameWithSuffix(d, suffix))
            == [DecimalText(d.year), MonthAbbreviation(d.month), TwoDigits(d.day), FileStem(d) + suffix]
  {
    var y, m, dd := DecimalText(d.year), MonthAbbreviation(d.month), TwoDigits(d.day);
    var last := FileStem(d) + suffix;
    PiecesArePlain(d);
    TimeLabelShape(d);
    assert HasNoSlash(DatePrefix(d));
    NoSlashJoin(DatePrefix(d), TimeLabel(d));
    NoSlashJoin(FileStem(d), suffix);
    Reassociate(y, m, dd, FileStem(d), suffix);
    SegmentsOfJoin(y, m + "/" + (dd + "/" + last));
    SegmentsOfJoin(m, dd + "/" + last);
    SegmentsOfJoin(dd, last);
    SegmentsOfPlain(last);
  }

  /** The corrected name is a year / month / day folder hierarchy holding one file name. */
  lemma EntryNameSegments(d: Timestamp, path: string)
    ensures Segments(EntryName(d, path))
            == [DecimalText(d.year), MonthAbbreviation(d.month), TwoDigits(d.day), FileStem(d) + GetExtension(path)]
  {
    ExtensionIsPlain(path);
    NameSegments(d, GetExtension(path));
  }

  /** The name as written is a year / month / day folder hierarchy holding one file name. */
  lemma AsWrittenSegments(d: Timestamp, path: string)
    ensures Segments(EntryNameAsWritten(d, path))
            == [DecimalText(d.year), MonthAbbreviation(d.month), TwoDigits(d.day), FileStem(d) + "." + GetExtension(path)]
  {
    ExtensionIsPlain(path);
    NoSlashJoin(".", GetExtension(path));
    NameSegments(d, "." + GetExtension(path));
    assert FileStem(d) + ("." + GetExtension(path)) == FileStem(d) + "." + GetExtension(path);
  }

  /** The time label names the hour and the minute. */
  lemma TimeLabelInjective(a: Timestamp, b: Timestamp)
    requires TimeLabel(a) == TimeLabel(b)
    ensures a.hour == b.hour && a.minute == b.minute
  {
    var ta, tb := TimeLabel(a), TimeLabel(b);
    assert ta[..2] == TwoDigits(Hour12(a.hour)) && tb[..2] == TwoDigits(Hour12(b.hour));
    assert ta[3..5] == TwoDigits(a.minute) && tb[3..5] == TwoDigits(b.minute);
    assert ta[5..] == Designator(a.hour) && tb[5..] == Designator(b.hour);
    TwoDigitsInjective(Hour12(a.hour), Hour12(b.hour));
    TwoDigitsInjective(a.minute, b.minute);
    ClockReadingInjective(a.hour, b.hour);
  }

  lemma SplitConcat(x1: string, y1: string, x2: string, y2: string)
    requires |x1| == |x2| && x1 + y1 == x2 + y2
    ensures x1 == x2 && y1 == y2
  {
    assert x1 == (x1 + y1)[..|x1|] && x2 == (x2 + y2)[..|x2|];
    assert y1 == (x1 + y1)[|x1|..] && y2 == (x2 + y2)[|x2|..];
  }

  /** Equal names with suffixes free of '/' come from the same day and the same file name. */
  lemma SameFolders(a: Timestamp, s: string, b: Timestamp, t: string)
    requires HasNoSlash(s) && HasNoSlash(t)
    requires NameWithSuffix(a, s) == NameWithSuffix(b, t)
    ensures a.year == b.year && a.month == b.month && a.day == b.day
    ensures FileStem(a) + s == FileStem(b) + t
  {
    NameSegments(a, s);
    NameSegments(b, t);
    var sa, sb := Segments(NameWithSuffix(a, s)), Segments(NameWithSuffix(b, t));
    assert DecimalText(a.year) == sa[0] == sb[0] == DecimalText(b.year);
    assert MonthAbbreviation(a.month) == sa[1] == sb[1] == MonthAbbreviation(b.month);
    assert TwoDigits(a.day) == sa[2] == sb[2] == TwoDigits(b.day);
    DecimalTextInjective(a.year, b.year);
    MonthAbbreviationInjective(a.month, b.month);
    TwoDigitsInjective(a.day, b.day);
  }

  /** Equal file stems of the same day name the same hour and minute. */
  lemma StemDeterminesTime(a: Timestamp, b: Timestamp)
    requires a.year == b.year && a.month == b.month && a.day == b.day
    requires FileStem(a) == FileStem(b)
    ensures a.hour == b.hour && a.minute == b.minute
  {
    assert DatePrefix(a) == DatePrefix(b);
    SplitConcat(DatePrefix(a), TimeLabel(a), DatePrefix(b), TimeLabel(b));
    TimeLabelInjective(a, b);
  }

  /** Equal names with suffixes free of '/' come from the same minute and carry the same suffix. */
  lemma NameDeterminesMinute(a: Timestamp, s: string, b: Timestamp, t: string)
    requires HasNoSlash(s) && HasNoSlash(t)
    requires NameWithSuffix(a, s) == NameWithSuffix(b, t)
    ensures SameMinute(a, b) && s == t
  {
    SameFolders(a, s, b, t);
    assert |DatePrefix(a)| == |DatePrefix(b)|;
    SplitConcat(FileStem(a), s, FileStem(b), t);
    StemDeterminesTime(a, b);
  }

  /** Seconds and ticks do not show in a name. */
  lemma MinuteDeterminesName(a: Timestamp, b: Timestamp)
    requires SameMinute(a, b)
    ensures Folders(a) == Folders(b) && FileStem(a) == FileStem(b)
  {
    assert DatePrefix(a) == DatePrefix(b);
    assert TimeLabel(a) == TimeLabel(b);
  }

  /** Two names with suffixes free of '/' are equal exactly when their timestamps agree to the
      minute and their suffixes are equal. */
  lemma NameCollision(a: Timestamp, s: string, b: Timestamp, t: string)
    requires HasNoSlash(s) && HasNoSlash(t)
    ensures NameWithSuffix(a, s) == NameWithSuffix(b, t) <==> SameMinute(a, b) && s == t
  {
    if NameWithSuffix(a, s) == NameWithSuffix(b, t) {
      NameDeterminesMinute(a, s, b, t);
    }
    if SameMinute(a, b) {
      MinuteDeterminesName(a, b);
    }
  }

  /** Two images get the same corrected entry name exactly when their timestamps agree to the
      minute and their files have the same extension. */
  lemma EntryNameCollision(a: Timestamp, p: string, b: Timestamp, q: string)
    ensures EntryName(a, p) == EntryName(b, q) <==> SameMinute(a, b) && GetExtension(p) == GetExtension(q)
  {
    ExtensionIsPlain(p);
    ExtensionIsPlain(q);
    NameCollision(a, GetExtension(p), b, GetExtension(q));
  }

  /** The same holds for the names as written: the extra period changes no collision. */
  lemma AsWrittenCollision(a: Timestamp, p: string, b: Timestamp, q: string)
    ensures EntryNameAsWritten(a, p) == EntryNameAsWritten(b, q)
            <==> SameMinute(a, b) && GetExtension(p) == GetExtension(q)
  {
    var ep, eq := GetExtension(p), GetExtension(q);
    ExtensionIsPlain(p);
    ExtensionIsPlain(q);
    NoSlashJoin(".", ep);
    NoSlashJoin(".", eq);
    NameCollision(a, "." + ep, b, "." + eq);
    if "." + ep == "." + eq {
      SplitConcat(".", ep, ".", eq);
    }
  }
}
