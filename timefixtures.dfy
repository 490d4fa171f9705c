/** The timestamps of the package's test data, and the Unix times
    parseEveTs gives them. Each is reached from the round-trip lemma of
    Util and the day number of its date in Calendar. */
module TimeFixtures {
  import opened Errors
  import opened Calendar
  import opened Util

  lemma TimeParseText(dt: DateTime)
    requires dt == DateTime(2012, 6, 12, 12, 4, 33)
    ensures Valid(dt) && FormatEveTs(dt) == "2012-06-12 12:04:33"
  {
    FormatEveTsChars(dt, "2012-06-12 12:04:33");
  }

  /** The timestamp of the package's time-parsing test. */
  lemma TimeParseFixture()
    ensures ParseEveTs("2012-06-12 12:04:33") == Ok(1339502673)
  {
    var dt := DateTime(2012, 6, 12, 12, 4, 33);
    TimeParseText(dt);
    June12th2012(dt);
    ParseEveTsAt("2012-06-12 12:04:33", dt, 15503, 43473);
  }

  lemma CurrentTimeText(dt: DateTime)
    requires dt == DateTime(2009, 10, 18, 17, 5, 31)
    ensures Valid(dt) && FormatEveTs(dt) == "2009-10-18 17:05:31"
  {
    FormatEveTsChars(dt, "2009-10-18 17:05:31");
  }

  /** The currentTime of both test envelopes. */
  lemma CurrentTimeFixture()
    ensures ParseEveTs("2009-10-18 17:05:31") == Ok(1255885531)
  {
    var dt := DateTime(2009, 10, 18, 17, 5, 31);
    CurrentTimeText(dt);
    October18th2009(dt);
    ParseEveTsAt("2009-10-18 17:05:31", dt, 14535, 61531);
  }

  lemma CachedUntilText(dt: DateTime)
    requires dt == DateTime(2009, 11, 18, 17, 5, 31)
    ensures Valid(dt) && FormatEveTs(dt) == "2009-11-18 17:05:31"
  {
    FormatEveTsChars(dt, "2009-11-18 17:05:31");
  }

  /** The cachedUntil of the test result envelope. */
  lemma CachedUntilFixture()
    ensures ParseEveTs("2009-11-18 17:05:31") == Ok(1258563931)
  {
    var dt := DateTime(2009, 11, 18, 17, 5, 31);
    CachedUntilText(dt);
    November18th2009(dt);
    ParseEveTsAt("2009-11-18 17:05:31", dt, 14566, 61531);
  }

  lemma ErrorCachedUntilText(dt: DateTime)
    requires dt == DateTime(2009, 11, 18, 19, 5, 31)
    ensures Valid(dt) && FormatEveTs(dt) == "2009-11-18 19:05:31"
  {
    FormatEveTsChars(dt, "2009-11-18 19:05:31");
  }

  /** The cachedUntil of the test error envelope. */
  lemma ErrorCachedUntilFixture()
    ensures ParseEveTs("2009-11-18 19:05:31") == Ok(1258571131)
  {
    var dt := DateTime(2009, 11, 18, 19, 5, 31);
    ErrorCachedUntilText(dt);
    November18th2009(dt);
    ParseEveTsAt("2009-11-18 19:05:31", dt, 14566, 68731);
  }

  lemma PaidUntilText(dt: DateTime)
    requires dt == DateTime(2011, 1, 1, 0, 0, 0)
    ensures Valid(dt) && FormatEveTs(dt) == "2011-01-01 00:00:00"
  {
    FormatEveTsChars(dt, "2011-01-01 00:00:00");
  }

  /** The paidUntil of the account status test document. */
  lemma PaidUntilFixture()
    ensures ParseEveTs("2011-01-01 00:00:00") == Ok(1293840000)
  {
    var dt := DateTime(2011, 1, 1, 0, 0, 0);
    PaidUntilText(dt);
    NewYear2011(dt);
    ParseMidnight("2011-01-01 00:00:00", dt, 14975);
  }

  lemma CreateDateText(dt: DateTime)
    requires dt == DateTime(2004, 1, 1, 0, 0, 0)
    ensures Valid(dt) && FormatEveTs(dt) == "2004-01-01 00:00:00"
  {
    FormatEveTsChars(dt, "2004-01-01 00:00:00");
  }

  /** The createDate of the account status test document. */
  lemma CreateDateFixture()
    ensures ParseEveTs("2004-01-01 00:00:00") == Ok(1072915200)
  {
    var dt := DateTime(2004, 1, 1, 0, 0, 0);
    CreateDateText(dt);
    NewYear2004(dt);
    ParseMidnight("2004-01-01 00:00:00", dt, 12418);
  }

  lemma ExpiresText(dt: DateTime)
    requires dt == DateTime(2011, 9, 11, 0, 0, 0)
    ensures Valid(dt) && FormatEveTs(dt) == "2011-09-11 00:00:00"
  {
    FormatEveTsChars(dt, "2011-09-11 00:00:00");
  }

  /** The expiry of the key info test document. */
  lemma ExpiresFixture()
    ensures ParseEveTs("2011-09-11 00:00:00") == Ok(1315699200)
  {
    var dt := DateTime(2011, 9, 11, 0, 0, 0);
    ExpiresText(dt);
    September11th2011(dt);
    ParseMidnight("2011-09-11 00:00:00", dt, 15228);
  }
}
