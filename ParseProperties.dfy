/**
 What a MagParse object holds after construction, Parsed(raw), as a function
 of the raw data: when it is rejected outright, what each field holds for a
 format B record, when it is valid and which message it carries.
 */
module ParseProperties {
  import opened Wrappers
  import opened Chars
  import opened TrackMatcher
  import opened Luhn
  import opened CardName
  import opened Expiration
  import opened MagParser

  /** The state of a rejected card: the raw data, no field filled in, an invalid-card message. */
  function Rejected(raw: string): (r: Fields) {
    Fresh(raw).(isValid := false, message := Some(InvalidCard))
  }

  /** A record the parser accepts: format B, a number that passes the check, a four-char expiry. */
  predicate Accepted(t: Track) {
    t.code == 'B' && AllDigits(t.number) && LuhnValid(t.number) && |t.expiry| >= 4
  }

  /** Without a record anywhere in the data the card is rejected and nothing is filled in. */
  lemma NoRecordRejected(raw: string)
    requires Find(raw).None?
    ensures Parsed(raw) == Rejected(raw)
  {
  }

  /** A first record whose format code is not B is rejected the same way. */
  lemma WrongFormatRejected(raw: string)
    requires Find(raw).Some? && Find(raw).value.1.code != 'B'
    ensures Parsed(raw) == Rejected(raw)
  {
  }

  /**
   Only the leftmost record counts: when it is not format B the card is
   rejected, even if a format B record follows later in the data.
   */
  lemma FirstRecordDecides(raw: string, i: nat, j: nat)
    requires i < j <= |raw|
    requires MatchAt(raw, i).Some? && MatchAt(raw, i).value.code != 'B'
    requires forall k :: 0 <= k < i ==> MatchAt(raw, k).None?
    requires MatchAt(raw, j).Some? && MatchAt(raw, j).value.code == 'B'
    ensures Parsed(raw) == Rejected(raw)
  {
    FindAt(raw, i);
  }

  /**
   For a format B record every step runs: the number is kept exactly when it
   passes the check, the names are always written, the expiry is stored as
   MMYY exactly when it has four chars, and the message is the one of the last
   step that failed.
   */
  lemma FormatBOutcome(raw: string)
    requires Find(raw).Some? && Find(raw).value.1.code == 'B'
    ensures var t := Find(raw).value.1;
            var p := Parsed(raw);
            && AllDigits(t.number)
            && p.magData == Some(raw)
            && p.cardNum == (if LuhnValid(t.number) then Some(t.number) else None)
            && p.lastName == Some(SplitName(t.name).last)
            && p.firstName == SplitName(t.name).first
            && p.expiration == (if |t.expiry| >= 4 then Some(SwapHalves(t.expiry)) else None)
            && p.isValid == (LuhnValid(t.number) && |t.expiry| >= 4)
            && p.message == (if |t.expiry| < 4 then Some(ExpirationError)
                             else if !LuhnValid(t.number) then Some(CardNumberError)
                             else None)
  {
    FindSound(raw);
  }

  /** The card is valid exactly when the leftmost record is accepted. */
  lemma ValidIff(raw: string)
    ensures Parsed(raw).isValid <==> Find(raw).Some? && Accepted(Find(raw).value.1)
  {
    if Find(raw).Some? && Find(raw).value.1.code == 'B' {
      FormatBOutcome(raw);
    }
  }

  /**
   There is no early exit after a bad number: with a short expiry as well, the
   expiration message replaces the card-number message.
   */
  lemma ExpirationMessageWins(raw: string)
    requires Find(raw).Some? && Find(raw).value.1.code == 'B'
    requires AllDigits(Find(raw).value.1.number) && !LuhnValid(Find(raw).value.1.number)
    requires |Find(raw).value.1.expiry| < 4
    ensures Parsed(raw).message == Some(ExpirationError)
    ensures Parsed(raw).cardNum.None? && Parsed(raw).expiration.None?
    ensures Parsed(raw).lastName.Some?
  {
    FormatBOutcome(raw);
  }

  /** The only expiry shorter than four chars the pattern lets through is a lone '^'. */
  lemma ShortExpiryIsMissing(raw: string)
    requires Find(raw).Some? && |Find(raw).value.1.expiry| < 4
    ensures Find(raw).value.1.expiry == "^"
  {
    FindSound(raw);
  }

  /**
   The running sum of the check digit loop never leaves the range of a Java
   int: the pattern admits at most 19 digits, each adding at most 9.
   */
  lemma NoSumOverflow(raw: string)
    requires Find(raw).Some?
    ensures AllDigits(Find(raw).value.1.number)
    ensures LuhnSum(Find(raw).value.1.number) <= 171 < 0x8000_0000
  {
    FindSound(raw);
    LuhnSumBound(Find(raw).value.1.number);
  }

  /** Once the data holds a record, appending text changes nothing the parser reports but magData. */
  lemma TrailingDataIgnored(raw: string, tail: string)
    requires Find(raw).Some?
    ensures Parsed(raw + tail) == Parsed(raw).(magData := Some(raw + tail))
  {
    FindIgnoresTail(raw, tail);
  }
}
