/**
 The MagParse class: it takes the raw text a magnetic-stripe reader produced,
 finds a Track 1 record in it, and keeps the card number, the expiration (as
 MMYY), the cardholder's first and last names, a validity flag and an error
 message.

 The fields are modelled one to one; a Java null is None. The pure functions
 Cleared, Fresh, AfterCardNum, AfterName, AfterExpiration and AfterChop give the
 state each step leaves behind, and each method of the class is proved to leave
 exactly that state. What the whole parse yields, Parsed(raw), is studied in
 the ParseProperties module.
 */
module MagParser {
  import opened Wrappers
  import opened Chars
  import opened JavaStrings
  import opened TrackMatcher
  import opened Luhn
  import opened CardName
  import opened Expiration

  const InvalidCard := "Invalid Card Type, please use a valid credit or debit card."
  const CardNumberError := "Invalid Credit Card Number"
  const ExpirationError := "Expiration date parsing error"

  /** The seven fields of a MagParse object. */
  datatype Fields = Fields(
    magData: Option<string>,
    cardNum: Option<string>,
    expiration: Option<string>,
    firstName: Option<string>,
    lastName: Option<string>,
    isValid: bool,
    message: Option<string>)

  /** The state clear() leaves: nothing parsed, valid, no message. */
  const Cleared := Fields(None, None, None, None, None, true, None)

  /** The state the constructor sets up before it calls chop(). */
  function Fresh(raw: string): (r: Fields) {
    Cleared.(magData := Some(raw))
  }

  /** processCreditCardNum: keep a number that passes the check, otherwise flag it. */
  function AfterCardNum(st: Fields, data: string): (r: Fields)
    requires AllDigits(data)
  {
    if LuhnValid(data) then st.(cardNum := Some(data))
    else st.(isValid := false, message := Some(CardNumberError))
  }

  /** processName: the last name is always written, the first name only when one was found. */
  function AfterName(st: Fields, data: string): (r: Fields) {
    var parts := SplitName(data);
    st.(lastName := Some(parts.last),
        firstName := if parts.first.Some? then parts.first else st.firstName)
  }

  /** processExpiration: a field shorter than four chars is an error, otherwise YYMM becomes MMYY. */
  function AfterExpiration(st: Fields, data: string): (r: Fields) {
    if |data| < 4 then st.(isValid := false, message := Some(ExpirationError))
    else st.(expiration := Some(SwapHalves(data)))
  }

  /**
   chop: no record, or a record whose format code is not B, makes the card
   invalid; otherwise the number, the name and the expiry are processed in
   that order, each whatever the outcome of the one before.
   */
  function AfterChop(st: Fields): (r: Fields)
    requires st.magData.Some?
  {
    var found := Find(st.magData.value);
    if found.None? then st.(isValid := false, message := Some(InvalidCard))
    else
      var t := found.value.1;
      if t.code != 'B' then st.(isValid := false, message := Some(InvalidCard))
      else
        FindSound(st.magData.value);
        AfterExpiration(AfterName(AfterCardNum(st, t.number), t.name), t.expiry)
  }

  /** What new MagParse(raw) holds once its constructor returns. */
  function Parsed(raw: string): (r: Fields) {
    AfterChop(Fresh(raw))
  }

  /** getMessage() is null exactly when isValid() holds. */
  predicate MessageMatchesValidity(f: Fields) {
    f.message.None? <==> f.isValid
  }

  /**
   Every way the parse can end agrees with the predicate: each step that
   clears isValid also sets a message, and no step sets a message otherwise.
   */
  lemma ParsedMessageMatchesValidity(raw: string)
    ensures MessageMatchesValidity(Parsed(raw))
  {
    var found := Find(raw);
    if found.Some? && found.value.1.code == 'B' {
      FindSound(raw);
    }
  }

  class MagParse {
    var magData: Option<string>
    var cardNum: Option<string>
    var expiration: Option<string>
    var firstName: Option<string>
    var lastName: Option<string>
    var isValid: bool
    var message: Option<string>

    /** All seven fields as one value. */
    function Snapshot(): (r: Fields)
      reads this
    {
      Fields(magData, cardNum, expiration, firstName, lastName, isValid, message)
    }

    // The getters: each reads one field.
    function GetMagData(): (r: Option<string>) reads this { magData }
    function GetCardNum(): (r: Option<string>) reads this { cardNum }
    function GetExpiration(): (r: Option<string>) reads this { expiration }
    function GetFirstName(): (r: Option<string>) reads this { firstName }
    function GetLastName(): (r: Option<string>) reads this { lastName }
    function IsValid(): (r: bool) reads this { isValid }
    function GetMessage(): (r: Option<string>) reads this { message }

    /** Stores the raw data, resets every other field, and parses. */
    constructor(raw: string)
      ensures Snapshot() == Parsed(raw)
      ensures MessageMatchesValidity(Snapshot())
    {
      magData := Some(raw);
      cardNum := None;
      expiration := None;
      firstName := None;
      lastName := None;
      isValid := true;
      message := None;
      new;
      Chop();
      ParsedMessageMatchesValidity(raw);
    }

    /** Forgets the data and every result. */
    method Clear()
      modifies this
      ensures Snapshot() == Cleared
      ensures MessageMatchesValidity(Snapshot())
    {
      magData := None;
      cardNum := None;
      expiration := None;
      firstName := None;
      lastName := None;
      isValid := true;
      message := None;
    }

    /** Overwrites the first name and nothing else. */
    method SetFirstName(name: Option<string>)
      modifies this
      ensures Snapshot() == old(Snapshot()).(firstName := name)
      ensures MessageMatchesValidity(Snapshot()) == MessageMatchesValidity(old(Snapshot()))
    {
      firstName := name;
    }

    /** Finds the record and runs the three field steps on it. */
    method Chop()
      requires magData.Some?
      modifies this
      ensures Snapshot() == AfterChop(old(Snapshot()))
    {
      var found := Find(magData.value);
      if found.None? {
        isValid := false;
        message := Some(InvalidCard);
        return;
      }
      var t := found.value.1;
      if t.code != 'B' {
        isValid := false;
        message := Some(InvalidCard);
        return;
      }
      FindSound(magData.value);
      var _ := ProcessCreditCardNum(t.number);
      ProcessName(t.name);
      var _ := ProcessExpiration(t.expiry);
    }

    /** Keeps the number when it passes the check digit test, and says whether it did. */
    method ProcessCreditCardNum(data: string) returns (ok: bool)
      requires AllDigits(data)
      modifies this
      ensures ok == LuhnValid(data)
      ensures Snapshot() == AfterCardNum(old(Snapshot()), data)
    {
      ok := LuhnCheck(data);
      if ok {
        cardNum := Some(data);
      } else {
        isValid := false;
        message := Some(CardNumberError);
      }
    }

    /** Repairs the two non-conforming name layouts, then splits on '/'. */
    method ProcessName(name: string)
      modifies this
      ensures Snapshot() == AfterName(old(Snapshot()), name)
    {
      var data := name;
      if '/' !in data {
        data := ReplaceFirst(data, ' ', '/');
      } else if data[|data| - 1] == '/' {
        data := Trim(RemoveAll(data, '/'));
        var index := LastIndexOf(data, ' ');
        if |data| > 0 && index >= 0 {
          var last := data[index..];
          var first := data[..index];
          data := Trim(last) + "/" + Trim(first);
        }
      }
      assert data == NormalizeName(name);
      var bits := Split(data, '/');
      if |bits| > 1 {
        firstName := Some(Trim(bits[1]));
        lastName := Some(Trim(bits[0]));
      } else {
        lastName := Some(data);
      }
    }

    /** Stores the expiration as MMYY, or flags a field that is too short. */
    method ProcessExpiration(data: string) returns (ok: bool)
      modifies this
      ensures ok == (|data| >= 4)
      ensures Snapshot() == AfterExpiration(old(Snapshot()), data)
    {
      if |data| < 4 {
        isValid := false;
        message := Some(ExpirationError);
        return false;
      }
      expiration := Some(data[2..4] + data[..2]);
      return true;
    }

    /**
     The check digit loop: from the rightmost digit leftwards, every second
     digit is doubled (less 9 when the product exceeds 9) and all are summed.
     */
    static method LuhnCheck(ccNumber: string) returns (ok: bool)
      requires AllDigits(ccNumber)
      ensures ok == LuhnValid(ccNumber)
    {
      var sum := 0;
      var alternate := false;
      var i := |ccNumber| - 1;
      while i >= 0
        invariant -1 <= i < |ccNumber|
        invariant alternate == ((|ccNumber| - 1 - i) % 2 == 1)
        invariant sum == LuhnSum(ccNumber[i + 1..])
        decreases i
      {
        var n := DigitValue(ccNumber[i]);
        if alternate {
          n := n * 2;
          if n > 9 {
            n := (n % 10) + 1;
          }
        }
        assert ccNumber[i..][1..] == ccNumber[i + 1..];
        sum := sum + n;
        alternate := !alternate;
        i := i - 1;
      }
      assert ccNumber[0..] == ccNumber;
      return sum % 10 == 0;
    }
  }
}
