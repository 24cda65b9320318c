/** The targets of one request: the URLs `__generateFileNames` enumerates, and
    what `__getBhavCopyFromNSE` derives from each URL (the saved file name and
    the message for a missing file). */
module Targets {
  import opened Wrappers
  import opened JsText
  import opened Codes
  import opened Validator

  const BaseUrl := "https://" + "nseindia.com/" + "content/" + "historical/" + "EQUITIES/"

  /** The archive name for one day: `"cm" + day + month + year + "bhav" + ".csv.zip"`. */
  function FileName(month: string, year: string, day: string): string
  {
    "cm" + day + month + year + "bhav" + ".csv.zip"
  }

  /** The archive URL for one day: the base, the year and month directories, then the file name. */
  function Url(month: string, year: string, day: string): string
  {
    BaseUrl + year + "/" + month + "/" + FileName(month, year, day)
  }

  /** `__generateFileNames`: one URL per day of a month (31 of them, whatever the month) when
      the day is falsy, else the one URL for the given day. */
  method GenerateFileNames(c: Criteria) returns (urls: seq<string>)
    ensures Falsy(c.day) ==>
              |urls| == 31 && forall i :: 0 <= i < 31 ==> urls[i] == Url(c.month, c.year, ToText(DayCode(i + 1)))
    ensures !Falsy(c.day) ==> urls == [Url(c.month, c.year, ToText(c.day))]
  {
    var baseUrl := BaseUrl;
    urls := [];
    if Falsy(c.day) {
      for i := 1 to 32
        invariant |urls| == i - 1
        invariant forall k :: 0 <= k < i - 1 ==> urls[k] == Url(c.month, c.year, ToText(DayCode(k + 1)))
      {
        var day;
        if i < 10 {
          day := Str("0" + IntText(i));
        } else {
          day := Num(i);
        }
        var fileName := "cm" + ToText(day) + c.month + c.year + "bhav" + ".csv.zip";
        var url := baseUrl + c.year + "/" + c.month + "/" + fileName;
        urls := urls + [url];
      }
    } else {
      var fileName := "cm" + ToText(c.day) + c.month + c.year + "bhav" + ".csv.zip";
      var url := baseUrl + c.year + "/" + c.month + "/" + fileName;
      urls := urls + [url];
    }
  }

  /** Two day texts of the same length give the same URL only if they are the same text. */
  lemma UrlDeterminesDay(month: string, year: string, d1: string, d2: string)
    requires |d1| == |d2|
    requires Url(month, year, d1) == Url(month, year, d2) || FileName(month, year, d1) == FileName(month, year, d2)
    ensures d1 == d2
  {
    var prefix := BaseUrl + year + "/" + month + "/";
    var f1, f2 := FileName(month, year, d1), FileName(month, year, d2);
    assert Url(month, year, d1) == prefix + f1 && Url(month, year, d2) == prefix + f2;
    assert (prefix + f1)[|prefix|..] == f1 && (prefix + f2)[|prefix|..] == f2;
    assert f1[2..2 + |d1|] == d1 && f2[2..2 + |d2|] == d2;
  }

  /** The 31 URLs of a month (and their file names) are pairwise distinct, so no two
      downloads of one request write the same file. */
  lemma MonthUrlsDistinct(month: string, year: string, i: nat, j: nat)
    requires 1 <= i <= 31 && 1 <= j <= 31 && i != j
    ensures Url(month, year, ToText(DayCode(i))) != Url(month, year, ToText(DayCode(j)))
    ensures FileName(month, year, ToText(DayCode(i))) != FileName(month, year, ToText(DayCode(j)))
  {
    var t1, t2 := ToText(DayCode(i)), ToText(DayCode(j));
    DayCodeText(i);
    DayCodeText(j);
    if Url(month, year, t1) == Url(month, year, t2) || FileName(month, year, t1) == FileName(month, year, t2) {
      UrlDeterminesDay(month, year, t1, t2);
    }
  }

  /** The name a download is saved under: the last `/`-segment of its URL. */
  function SavedName(url: string): string
  {
    LastSegment(url)
  }

  /** The saved name of a generated URL is its archive file name. */
  lemma SavedNameOfUrl(month: string, year: string, day: string)
    requires '/' !in month && '/' !in year && '/' !in day
    ensures SavedName(Url(month, year, day)) == FileName(month, year, day)
  {
    var f := FileName(month, year, day);
    assert '/' !in f;
    assert Url(month, year, day) == (BaseUrl + year + "/" + month) + "/" + f;
    LastSegmentAfterSlash(BaseUrl + year + "/" + month, f);
  }

  /** The message for a missing file: "File Not Found on " and the URL with the first
      ".csv.zip", then the first "cm", then the first "bhav" removed. */
  function NotFoundMessage(url: string): string
  {
    "File Not Found on " + RemoveFirst(RemoveFirst(RemoveFirst(url, ".csv.zip"), "cm"), "bhav")
  }

  /** What one response makes of one target (the value the response handler returns):
      a 200 status saves the body under the directory, any other status reports the file
      missing. An empty URL is skipped. */
  datatype Outcome = Saved(path: string) | NotFound(message: string)

  function Classify(baseDir: string, url: string, status: int): Option<Outcome>
  {
    if url == "" then None
    else if status == 200 then Some(Saved(baseDir + "/" + SavedName(url)))
    else Some(NotFound(NotFoundMessage(url)))
  }

  // ---------------------------------------------------------------------------
  // Where the removals of NotFoundMessage land on a generated URL

  lemma AbsentByPair(s: string, pat: string)
    requires |pat| >= 2
    requires forall i :: 0 <= i <= |s| - |pat| ==> s[i] != pat[0] || s[i + 1] != pat[1]
    ensures forall i :: !OccursAt(s, pat, i)
  {
    forall i
      ensures !OccursAt(s, pat, i)
    {
      if 0 <= i && i + |pat| <= |s| {
        assert s[i..i + |pat|][0] == s[i] && s[i..i + |pat|][1] == s[i + 1];
      }
    }
  }

  lemma AbsentByTriple(s: string, pat: string)
    requires |pat| >= 3
    requires forall i :: 0 <= i <= |s| - |pat| ==> s[i] != pat[0] || s[i + 1] != pat[1] || s[i + 2] != pat[2]
    ensures forall i :: !OccursAt(s, pat, i)
  {
    forall i
      ensures !OccursAt(s, pat, i)
    {
      if 0 <= i && i + |pat| <= |s| {
        assert s[i..i + |pat|][0] == s[i] && s[i..i + |pat|][1] == s[i + 1] && s[i..i + |pat|][2] == s[i + 2];
      }
    }
  }

  /** No occurrence straddles a slash that the pattern does not contain. */
  lemma AbsentInConcat(a: string, b: string, pat: string)
    requires |a| >= 1 && a[|a| - 1] == '/' && '/' !in pat
    requires forall i :: !OccursAt(a, pat, i)
    requires forall i :: !OccursAt(b, pat, i)
    ensures forall i :: !OccursAt(a + b, pat, i)
  {
    var s := a + b;
    forall i
      ensures !OccursAt(s, pat, i)
    {
      if i < 0 || i + |pat| > |s| {
      } else if i + |pat| <= |a| {
        assert s[i..i + |pat|] == a[i..i + |pat|];
        assert !OccursAt(a, pat, i);
      } else if i < |a| {
        assert s[i..i + |pat|][|a| - 1 - i] == '/';
      } else {
        assert s[i..i + |pat|] == b[i - |a|..i - |a| + |pat|];
        assert !OccursAt(b, pat, i - |a|);
      }
    }
  }

  /** A slash-free pattern absent from five slash-terminated pieces is absent from their concatenation. */
  lemma AbsentInPieces(b1: string, b2: string, b3: string, b4: string, b5: string, pat: string)
    requires '/' !in pat
    requires |b1| >= 1 && b1[|b1| - 1] == '/' && forall i :: !OccursAt(b1, pat, i)
    requires |b2| >= 1 && b2[|b2| - 1] == '/' && forall i :: !OccursAt(b2, pat, i)
    requires |b3| >= 1 && b3[|b3| - 1] == '/' && forall i :: !OccursAt(b3, pat, i)
    requires |b4| >= 1 && b4[|b4| - 1] == '/' && forall i :: !OccursAt(b4, pat, i)
    requires forall i :: !OccursAt(b5, pat, i)
    ensures forall i :: !OccursAt(b1 + (b2 + (b3 + (b4 + b5))), pat, i)
  {
    AbsentInConcat(b4, b5, pat);
    AbsentInConcat(b3, b4 + b5, pat);
    AbsentInConcat(b2, b3 + (b4 + b5), pat);
    AbsentInConcat(b1, b2 + (b3 + (b4 + b5)), pat);
  }

  lemma BaseUrlPieces()
    ensures BaseUrl == "https://" + ("nseindia.com/" + ("content/" + ("historical/" + "EQUITIES/")))
  {
  }

  lemma ExtensionAbsentFromBase()
    ensures forall i :: !OccursAt(BaseUrl, ".csv.zip", i)
  {
    var pat := ".csv.zip";
    assert forall i :: !OccursAt("https://" + ("nseindia.com/" + ("content/" + ("historical/" + "EQUITIES/"))), pat, i) by {
      AbsentByTriple("https://", pat);
      AbsentByTriple("nseindia.com/", pat);
      AbsentByTriple("content/", pat);
      AbsentByTriple("historical/", pat);
      AbsentByTriple("EQUITIES/", pat);
      AbsentInPieces("https://", "nseindia.com/", "content/", "historical/", "EQUITIES/", pat);
    }
    BaseUrlPieces();
  }

  lemma PairAbsentFromBase(pat: string)
    requires pat == "cm" || pat == "bhav"
    ensures forall i :: !OccursAt(BaseUrl, pat, i)
  {
    assert forall i :: !OccursAt("https://" + ("nseindia.com/" + ("content/" + ("historical/" + "EQUITIES/"))), pat, i) by {
      AbsentByPair("https://", pat);
      AbsentByPair("nseindia.com/", pat);
      AbsentByPair("content/", pat);
      AbsentByPair("historical/", pat);
      AbsentByPair("EQUITIES/", pat);
      AbsentInPieces("https://", "nseindia.com/", "content/", "historical/", "EQUITIES/", pat);
    }
    BaseUrlPieces();
  }

  /** The directory and date parts of a generated URL are made of digits, upper-case letters
      and slashes only, so the removed patterns cannot start in them. */
  lemma DirsAndDatePlain(year: string, month: string, day: string)
    requires MonthShaped(month) && AllDigits(year) && AllDigits(day)
    ensures var dirs := year + "/" + month + "/";
            var date := day + month + year;
            '.' !in dirs && '.' !in date && 'c' !in dirs && 'b' !in dirs + date
  {
    assert |month| == 3 && forall k :: 0 <= k < 3 ==> IsUpper(month[k]);
    assert forall k :: 0 <= k < |year| ==> IsDigit(year[k]);
    assert forall k :: 0 <= k < |day| ==> IsDigit(day[k]);
  }

  /** A pattern absent from a slash-terminated `base` whose first character is absent from `a`
      is removed where it follows `base + a`. */
  lemma RemoveFirstAfterBase(base: string, a: string, pat: string, b: string)
    requires |base| >= 1 && base[|base| - 1] == '/'
    requires |pat| >= 1 && '/' !in pat && pat[0] !in a
    requires forall i :: !OccursAt(base, pat, i)
    ensures RemoveFirst(base + a + pat + b, pat) == base + a + b
  {
    assert base + a + pat + b == base + (a + pat + b);
    RemoveFirstSkipsSegment(base, a + pat + b, pat);
    RemoveFirstAfterFreePrefix(a, pat, b);
  }

  /** A pattern at the very end, after a base free of it and a part its first character
      is absent from, is the one removed. */
  lemma RemoveTrailing(base: string, a: string, pat: string)
    requires |base| >= 1 && base[|base| - 1] == '/'
    requires |pat| >= 1 && '/' !in pat && pat[0] !in a
    requires forall i :: !OccursAt(base, pat, i)
    ensures RemoveFirst(base + a + pat, pat) == base + a
  {
    var e: string := [];
    assert base + a + pat == base + a + pat + e;
    RemoveFirstAfterBase(base, a, pat, e);
    assert base + a + e == base + a;
  }

  lemma NoDotAround(dirs: string, date: string)
    requires '.' !in dirs && '.' !in date
    ensures '.' !in dirs + "cm" + date + "bhav"
  {
  }

  /** Re-bracketing of the concatenations the removal lemmas see. */
  lemma Regroup(a: string, b: string, c: string, d: string, e: string)
    ensures a + (b + c + d + e) == a + b + c + (d + e)
    ensures a + b + (d + e) == a + (b + d) + e
  {
  }

  /** The three removals of NotFoundMessage on `base + dirs + "cm" + date + "bhav" + ".csv.zip"`,
      when none of the patterns occurs in `base` and none can start in `dirs` or `date`. */
  lemma RemovalsAfterBase(base: string, dirs: string, date: string)
    requires |base| >= 1 && base[|base| - 1] == '/'
    requires forall i :: !OccursAt(base, ".csv.zip", i)
    requires forall i :: !OccursAt(base, "cm", i)
    requires forall i :: !OccursAt(base, "bhav", i)
    requires '.' !in dirs && '.' !in date && 'c' !in dirs && 'b' !in dirs + date
    ensures RemoveFirst(RemoveFirst(RemoveFirst(base + (dirs + "cm" + date + "bhav") + ".csv.zip", ".csv.zip"), "cm"), "bhav")
            == base + (dirs + date)
  {
    ExtensionAndCmRemoved(base, dirs, date);
    BhavRemoved(base, dirs + date);
  }

  /** The last removal: the file name's "bhav", now at the end. */
  lemma BhavRemoved(base: string, a: string)
    requires |base| >= 1 && base[|base| - 1] == '/'
    requires forall i :: !OccursAt(base, "bhav", i)
    requires 'b' !in a
    ensures RemoveFirst(base + a + "bhav", "bhav") == base + a
  {
    RemoveTrailing(base, a, "bhav");
  }

  /** The first two removals: the extension, then the file name's "cm". */
  lemma ExtensionAndCmRemoved(base: string, dirs: string, date: string)
    requires |base| >= 1 && base[|base| - 1] == '/'
    requires forall i :: !OccursAt(base, ".csv.zip", i)
    requires forall i :: !OccursAt(base, "cm", i)
    requires '.' !in dirs && '.' !in date && 'c' !in dirs
    ensures RemoveFirst(RemoveFirst(base + (dirs + "cm" + date + "bhav") + ".csv.zip", ".csv.zip"), "cm")
            == base + (dirs + date) + "bhav"
  {
    ExtensionRemoved(base, dirs, date);
    RemoveFirstAfterBase(base, dirs, "cm", date + "bhav");
    Regroup(base, dirs, "cm", date, "bhav");
  }

  /** The first removal: the extension. */
  lemma ExtensionRemoved(base: string, dirs: string, date: string)
    requires |base| >= 1 && base[|base| - 1] == '/'
    requires forall i :: !OccursAt(base, ".csv.zip", i)
    requires '.' !in dirs && '.' !in date
    ensures RemoveFirst(base + (dirs + "cm" + date + "bhav") + ".csv.zip", ".csv.zip")
            == base + dirs + "cm" + (date + "bhav")
  {
    NoDotAround(dirs, date);
    RemoveTrailing(base, dirs + "cm" + date + "bhav", ".csv.zip");
    Regroup(base, dirs, "cm", date, "bhav");
  }

  /** On a generated URL the removals hit the file name's own "cm", "bhav" and ".csv.zip":
      the message names the month directory followed by `<day><MONTH><year>`. */
  lemma NotFoundMessageOfUrl(month: string, year: string, day: string)
    requires MonthShaped(month) && AllDigits(year) && AllDigits(day)
    ensures NotFoundMessage(Url(month, year, day)) ==
            "File Not Found on " + BaseUrl + year + "/" + month + "/" + day + month + year
  {
    BaseUrlEndsInSlash();
    ExtensionAbsentFromBase();
    PairAbsentFromBase("cm");
    PairAbsentFromBase("bhav");
    RemovalsOnUrl(BaseUrl, month, year, day);
  }

  lemma BaseUrlEndsInSlash()
    ensures |BaseUrl| >= 1 && BaseUrl[|BaseUrl| - 1] == '/'
  {
    var tail := "EQUITIES/";
    assert BaseUrl == ("https://" + "nseindia.com/" + "content/" + "historical/") + tail;
  }

  /** The three removals on a generated URL over any slash-terminated base in which none of
      the patterns occurs. */
  lemma RemovalsOnUrl(base: string, month: string, year: string, day: string)
    requires |base| >= 1 && base[|base| - 1] == '/'
    requires forall i :: !OccursAt(base, ".csv.zip", i)
    requires forall i :: !OccursAt(base, "cm", i)
    requires forall i :: !OccursAt(base, "bhav", i)
    requires MonthShaped(month) && AllDigits(year) && AllDigits(day)
    ensures RemoveFirst(RemoveFirst(RemoveFirst(base + year + "/" + month + "/" + FileName(month, year, day), ".csv.zip"), "cm"), "bhav")
            == base + year + "/" + month + "/" + day + month + year
  {
    var dirs := year + "/" + month + "/";
    var date := day + month + year;
    DirsAndDatePlain(year, month, day);
    UrlShape(base, year, month, day);
    RemovalsAfterBase(base, dirs, date);
  }

  /** How a generated URL splits into the pieces the removal lemmas work on. */
  lemma UrlShape(base: string, y: string, month: string, day: string)
    ensures base + y + "/" + month + "/" + ("cm" + day + month + y + "bhav" + ".csv.zip")
            == base + ((y + "/" + month + "/") + "cm" + (day + month + y) + "bhav") + ".csv.zip"
    ensures base + ((y + "/" + month + "/") + (day + month + y))
            == base + y + "/" + month + "/" + day + month + y
  {
  }

  /** What a response to a generated URL yields: a 200 saves `<baseDir>/<file name>`,
      any other status reports the month directory followed by `<day><MONTH><year>`. */
  lemma ClassifyGeneratedUrl(baseDir: string, month: string, year: string, day: string, status: int)
    requires MonthShaped(month) && AllDigits(year) && AllDigits(day)
    ensures status == 200 ==>
              Classify(baseDir, Url(month, year, day), status) ==
              Some(Saved(baseDir + "/" + FileName(month, year, day)))
    ensures status != 200 ==>
              Classify(baseDir, Url(month, year, day), status) ==
              Some(NotFound("File Not Found on " + BaseUrl + year + "/" + month + "/" + day + month + year))
  {
    assert '/' !in month by {
      assert forall k :: 0 <= k < 3 ==> IsUpper(month[k]);
    }
    assert '/' !in year by {
      assert forall k :: 0 <= k < |year| ==> IsDigit(year[k]);
    }
    assert '/' !in day by {
      assert forall k :: 0 <= k < |day| ==> IsDigit(day[k]);
    }
    SavedNameOfUrl(month, year, day);
    NotFoundMessageOfUrl(month, year, day);
  }
}
