/** The parser on concrete stripe data. */
module ParseExamples {
  import opened Wrappers
  import opened Chars
  import opened JavaStrings
  import opened TrackMatcher
  import opened Luhn
  import opened CardName
  import opened Expiration
  import opened MagParser
  import opened ParseProperties

  const TestCardRecord := Track('B', "4111111111111111", "DOE/JOHN", "2901")

  lemma TestCardWellFormed()
    ensures WellFormed(TestCardRecord)
  {
  }

  lemma TestCardLayout()
    ensures Layout(TestCardRecord, true) == "%B4111111111111111^DOE/JOHN^2901"
  {
    var s1 := "%" + ['B'] + "4111111111111111";
    assert s1 == "%B4111111111111111" by {
      forall i | 0 <= i < |s1| ensures s1[i] == "%B4111111111111111"[i] { }
    }
    var s2 := "%B4111111111111111" + "^" + "DOE/JOHN";
    assert s2 == "%B4111111111111111^DOE/JOHN" by {
      forall i | 0 <= i < |s2| ensures s2[i] == "%B4111111111111111^DOE/JOHN"[i] { }
    }
    var s3 := "%B4111111111111111^DOE/JOHN" + "^" + "2901";
    assert s3 == "%B4111111111111111^DOE/JOHN^2901" by {
      forall i | 0 <= i < |s3| ensures s3[i] == "%B4111111111111111^DOE/JOHN^2901"[i] { }
    }
  }

  lemma TestCardText()
    ensures "%B4111111111111111^DOE/JOHN^29011015400000000000?" ==
            "%B4111111111111111^DOE/JOHN^2901" + "1015400000000000?"
  {
    var raw := "%B4111111111111111^DOE/JOHN^29011015400000000000?";
    var s := "%B4111111111111111^DOE/JOHN^2901" + "1015400000000000?";
    forall i | 0 <= i < |raw| ensures raw[i] == s[i] { }
  }

  lemma TestCardName()
    ensures SplitName("DOE/JOHN") == NameParts("DOE", Some("JOHN"))
  {
    assert "DOE/JOHN" == "DOE" + "/" + "JOHN";
    ConventionalLayout("DOE", "JOHN");
  }

  /** A format B test card for John Doe expiring January 2029 is valid and fully read. */
  lemma TestCardAccepted()
    ensures Parsed("%B4111111111111111^DOE/JOHN^29011015400000000000?") ==
            Fields(Some("%B4111111111111111^DOE/JOHN^29011015400000000000?"),
                   Some("4111111111111111"), Some("0129"), Some("JOHN"), Some("DOE"), true, None)
  {
    var raw := "%B4111111111111111^DOE/JOHN^29011015400000000000?";
    TestCardWellFormed();
    TestCardLayout();
    TestCardText();
    RecordAtStart(TestCardRecord, true, "1015400000000000?");
    FormatBOutcome(raw);
    TestCardPasses();
    TestCardName();
    ExampleExpiry();
  }

  /** Text with no capital letter holds no record, so the card is rejected. */
  lemma GarbageRejected()
    ensures Parsed("garbage-not-a-track") == Rejected("garbage-not-a-track")
  {
    var raw := "garbage-not-a-track";
    forall j | 0 <= j < |raw| ensures !IsUpper(raw[j]) { }
    NoLetterNoMatch(raw);
    NoRecordRejected(raw);
  }

  const FormatARecord := Track('A', "4111111111111111", "DOE/JOHN", "2901")

  lemma FormatALayout()
    ensures Layout(FormatARecord, true) + "?" == "%A4111111111111111^DOE/JOHN^2901?"
  {
    var s1 := "%" + ['A'] + "4111111111111111";
    assert s1 == "%A4111111111111111" by {
      forall i | 0 <= i < |s1| ensures s1[i] == "%A4111111111111111"[i] { }
    }
    var s2 := "%A4111111111111111" + "^" + "DOE/JOHN";
    assert s2 == "%A4111111111111111^DOE/JOHN" by {
      forall i | 0 <= i < |s2| ensures s2[i] == "%A4111111111111111^DOE/JOHN"[i] { }
    }
    var s3 := "%A4111111111111111^DOE/JOHN" + "^" + "2901" + "?";
    assert s3 == "%A4111111111111111^DOE/JOHN^2901?" by {
      forall i | 0 <= i < |s3| ensures s3[i] == "%A4111111111111111^DOE/JOHN^2901?"[i] { }
    }
  }

  /** The same record with format code A is rejected although its number passes the check. */
  lemma FormatARejected()
    ensures Parsed("%A4111111111111111^DOE/JOHN^2901?") == Rejected("%A4111111111111111^DOE/JOHN^2901?")
  {
    var raw := "%A4111111111111111^DOE/JOHN^2901?";
    assert WellFormed(FormatARecord);
    FormatALayout();
    RecordAtStart(FormatARecord, true, "?");
    WrongFormatRejected(raw);
  }

  /** A wide-stripe name without '/' : "LOY DARLA E" is last name LOY, first name DARLA E. */
  lemma WideStripeName()
    ensures SplitName("LOY DARLA E") == NameParts("LOY", Some("DARLA E"))
  {
    assert "LOY DARLA E" == "LOY" + " " + "DARLA E";
    WideStripeLayout("LOY", "DARLA E");
  }

  /** A first-name-first layout closed by a '/' after padding blanks. */
  lemma TrailingSlashName()
    ensures SplitName("FIRSTNAME M LASTNAME        /") == NameParts("LASTNAME", Some("FIRSTNAME M"))
  {
    var pad := "        ";
    assert "FIRSTNAME M LASTNAME        /" == "FIRSTNAME M" + " " + "LASTNAME" + pad + "/";
    TrailingSlashLayout("FIRSTNAME M", "LASTNAME", pad);
  }
}
