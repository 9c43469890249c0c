/** Where `copyFile` puts a photo: the capture date, already split into the
    `Calendar` fields YEAR, MONTH and DAY_OF_MONTH, becomes three folder names
    under the destination, each the unpadded `String.valueOf` of its field,
    and the file keeps its own name. MONTH is `Calendar`'s 0-based month, so
    January is folder "0" and December folder "11". */
module Layout {
  import opened Decimal
  import opened Paths

  /** The three `Calendar` fields `copyFile` reads; month is 0-based. */
  datatype CalendarDate = CalendarDate(year: int, month: int, day: int)

  /** The folder names of a date: year, month, day, in that order. */
  function DateNames(date: CalendarDate): seq<string> {
    [DecimalString(date.year), DecimalString(date.month), DecimalString(date.day)]
  }

  /** `Paths.get(destination, year, month, day)`: the folder `mkdirs` creates. */
  function DayFolder(destination: string, date: CalendarDate): Path {
    Get(destination, DateNames(date))
  }

  /** `Paths.get(destination, year, month, day, jpegFile.getName())`: where the
      photo at `source` is copied to. */
  function Target(destination: string, date: CalendarDate, source: Path): Path {
    Get(destination, DateNames(date) + [FileName(source)])
  }

  lemma DecimalIsName(n: int)
    ensures IsName(DecimalString(n))
  {
    var s := DecimalString(n);
    assert forall i :: 0 <= i < |s| ==> s[i] == '-' || IsDigit(s[i]);
  }

  lemma DateNamesAreNames(date: CalendarDate)
    ensures forall i :: 0 <= i < 3 ==> IsName(DateNames(date)[i])
  {
    DecimalIsName(date.year);
    DecimalIsName(date.month);
    DecimalIsName(date.day);
  }

  /** The day folder is the destination followed by exactly three names, the
      decimal year, 0-based month and day, with the destination's root kept. */
  lemma DayFolderLayout(destination: string, date: CalendarDate)
    ensures var root := PathOf(destination);
      DayFolder(destination, date) == Path(root.absolute, root.names + DateNames(date))
  {
    DateNamesAreNames(date);
    GetAppends(destination, DateNames(date));
    NamesOfAllNames(DateNames(date));
  }

  /** A photo whose own name is a proper file name lands directly inside its
      day folder under that unchanged name:
      destination/str(year)/str(month)/str(day)/name. */
  lemma TargetLayout(destination: string, date: CalendarDate, source: Path)
    requires IsName(FileName(source))
    ensures var root := PathOf(destination);
      Target(destination, date, source)
        == Path(root.absolute, root.names + DateNames(date) + [FileName(source)])
    ensures var folder := DayFolder(destination, date);
      Target(destination, date, source) == Path(folder.absolute, folder.names + [FileName(source)])
  {
    var more := DateNames(date) + [FileName(source)];
    DateNamesAreNames(date);
    GetAppends(destination, more);
    NamesOfAllNames(more);
    DayFolderLayout(destination, date);
  }

  /** Whatever the photo's name, its target and its day folder lie under the
      destination. */
  lemma TargetUnderDestination(destination: string, date: CalendarDate, source: Path)
    ensures Under(PathOf(destination), DayFolder(destination, date))
    ensures Under(PathOf(destination), Target(destination, date, source))
  {
    var more := DateNames(date) + [FileName(source)];
    DateNamesAreNames(date);
    DayFolderLayout(destination, date);
    GetAppends(destination, more);
  }

  /** Two photos share a target exactly when their dates and names agree:
      distinct capture days never share a folder. */
  lemma TargetInjective(destination: string, d1: CalendarDate, s1: Path, d2: CalendarDate, s2: Path)
    requires IsName(FileName(s1)) && IsName(FileName(s2))
    ensures Target(destination, d1, s1) == Target(destination, d2, s2)
      <==> d1 == d2 && FileName(s1) == FileName(s2)
  {
    TargetLayout(destination, d1, s1);
    TargetLayout(destination, d2, s2);
    var n := |PathOf(destination).names|;
    if Target(destination, d1, s1) == Target(destination, d2, s2) {
      var a := Target(destination, d1, s1).names;
      var b := Target(destination, d2, s2).names;
      assert a[n] == DecimalString(d1.year) && b[n] == DecimalString(d2.year);
      assert a[n + 1] == DecimalString(d1.month) && b[n + 1] == DecimalString(d2.month);
      assert a[n + 2] == DecimalString(d1.day) && b[n + 2] == DecimalString(d2.day);
      assert a[n + 3] == FileName(s1) && b[n + 3] == FileName(s2);
      DecimalStringInjective(d1.year, d2.year);
      DecimalStringInjective(d1.month, d2.month);
      DecimalStringInjective(d1.day, d2.day);
    }
  }

  /** January is `Calendar.MONTH` 0, so its photos go to a folder named "0". */
  lemma JanuaryFolderIsZero(destination: string, year: int, day: int)
    ensures var folder := DayFolder(destination, CalendarDate(year, 0, day));
      |folder.names| == |PathOf(destination).names| + 3
      && folder.names[|PathOf(destination).names| + 1] == "0"
  {
    DayFolderLayout(destination, CalendarDate(year, 0, day));
  }

  /** A photo taken on 7 March 2023 has the `Calendar` fields 2023, 2 and 7,
      so it goes to the folders 2023/2/7: no zero padding, 0-based month. */
  lemma SeventhOfMarchFolders()
    ensures DateNames(CalendarDate(2023, 2, 7)) == ["2023", "2", "7"]
  {
    assert Digits(20) == "20";
    assert Digits(202) == "202";
    assert Digits(2023) == "2023";
  }
}
