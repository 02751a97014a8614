# MagParse in Dafny

A model of `MagParse`, a small Java class that reads the raw text of a magnetic
card stripe. It finds an ISO/IEC 7813 Track 1 record in the text. It keeps:

- the card number, when it passes the Luhn check digit test;
- the cardholder's last and first names, after repairing two non-standard name
  layouts;
- the expiration, turned from YYMM into MMYY;
- a validity flag and an error message.

Any record format other than `B` (financial cards) is rejected.

## Layout

- `Wrappers.dfy` holds `Option`. A Java `null` is `None`.
- `Chars.dfy` defines digits and capital letters.
- `JavaStrings.dfy` defines the `java.lang.String` operations the class uses.
  - `indexOf` and `lastIndexOf`.
  - `replaceFirst` with a one-character pattern.
  - `replace(c, "")`.
  - `trim()`, which strips every char whose code is at most U+0020.
  - `split` with limit 0. If the separator does not occur, the result is the
    whole string. Otherwise it is the pieces, with trailing empty strings
    dropped.
  - Each operation is tied to a partner: split to join, trim to padding, and
    replace to a multiset count.
- `TrackMatcher.dfy` models the pattern of `chop` and `Matcher.find()`.
  - `Layout` and `WellFormed` give the grammar of the four groups the parser
    reads.
  - `MatchAt` is a deterministic recognizer for one start position, proved
    sound and complete against that grammar.
  - `Find` takes the leftmost start position where `MatchAt` succeeds.
  - The file header explains why the backtracking matcher has only one
    possible outcome at each position.
- `Luhn.dfy` is the check digit formula as a recursive specification.
- `Expiration.dfy` is the YYMM to MMYY exchange.
- `CardName.dfy` is the name normalisation of `processName`, with one lemma per
  branch and per name layout named in the source's comments.
- `MagParse.dfy` holds the class.
  - It has the seven fields and the `Fields` snapshot datatype.
  - The pure step functions `AfterCardNum`, `AfterName`, `AfterExpiration`,
    `AfterChop` and `Parsed` each give the state one step leaves.
  - Each method is proved to leave exactly that state.
  - `LuhnCheck` keeps the source's loop, with invariants that tie it to
    `LuhnSum`.
  - The seven getters (`GetMagData` to `GetMessage`) read one field each and
    are plain accessors. What they report together is stated by
    `MessageMatchesValidity`, which the constructor, `Clear` and
    `SetFirstName` establish or preserve.
- `ParseProperties.dfy` states what a newly constructed object holds, as a
  function of the raw text.
- `ParseExamples.dfy` works through concrete stripes and names.

Two behaviours of the code are easy to miss:

- **No early exit.** After a number fails the check digit test, `chop` still
  processes the name and the expiration. A short expiration then replaces the
  card-number message (`ExpirationMessageWins`).
- **Not anchored.** The pattern is looked for with `find()`, so a record can
  start anywhere in the text (`LeadingJunkSkipped`). A later format-B record
  does not rescue a leftmost record of another format (`FirstRecordDecides`).
  Text after the first record changes nothing but `magData`
  (`TrailingDataIgnored`).

## Model

| member | source | states |
|---|---|---|
| MagParser.MagParse.constructor | src/main/java/works/deasil/magparse/MagParse.java:43-53 | the new object holds Parsed(raw), and its message is None exactly when it is valid |
| MagParser.MagParse.Clear | src/main/java/works/deasil/magparse/MagParse.java:55-63 | leaves the state Cleared: every field is null, isValid is true, and message-iff-invalid holds |
| MagParser.MagParse.SetFirstName | src/main/java/works/deasil/magparse/MagParse.java:189-191 | only firstName changes, and message-iff-invalid is preserved |
| MagParser.MagParse.Chop | src/main/java/works/deasil/magparse/MagParse.java:65-99 | the new state is AfterChop of the old one: invalid-card on no match or a non-B code, otherwise the number, name and expiration steps in order |
| MagParser.MagParse.ProcessCreditCardNum | src/main/java/works/deasil/magparse/MagParse.java:101-111 | returns whether the number passes Luhn; keeps it if so, otherwise clears isValid and sets "Invalid Credit Card Number" |
| MagParser.MagParse.ProcessName | src/main/java/works/deasil/magparse/MagParse.java:113-141 | lastName is always set; firstName is set only when split gives two or more pieces; both come from SplitName |
| MagParser.MagParse.ProcessExpiration | src/main/java/works/deasil/magparse/MagParse.java:143-154 | returns whether the field has four chars; if so stores SwapHalves, otherwise clears isValid and sets "Expiration date parsing error" |
| MagParser.MagParse.LuhnCheck | src/main/java/works/deasil/magparse/MagParse.java:156-171 | the right-to-left loop returns exactly LuhnValid(ccNumber) |
| MagParser.Fresh | src/main/java/works/deasil/magparse/MagParse.java:43-51 | the state before chop(): magData is the argument, the other five fields null, isValid true |
| MagParser.AfterCardNum | src/main/java/works/deasil/magparse/MagParse.java:101-111 | a number that passes the check is stored; otherwise isValid is cleared and the card-number message set, and the number is not stored |
| MagParser.AfterName | src/main/java/works/deasil/magparse/MagParse.java:113-141 | lastName is always written from SplitName; firstName only when SplitName finds one, and keeps its old value otherwise |
| MagParser.AfterExpiration | src/main/java/works/deasil/magparse/MagParse.java:143-154 | a field shorter than four chars clears isValid and sets the expiration message; otherwise SwapHalves of it is stored |
| MagParser.AfterChop | src/main/java/works/deasil/magparse/MagParse.java:65-99 | no record or a code other than B gives invalid-card; otherwise the number, name and expiry steps run in that order on the groups of the leftmost record |
| MagParser.Parsed | src/main/java/works/deasil/magparse/MagParse.java:43-53 | the state the constructor leaves: AfterChop of Fresh(raw) |
| MagParser.ParsedMessageMatchesValidity | src/main/java/works/deasil/magparse/MagParse.java:65-154 | after any parse, message is None if and only if isValid |
| Chars.DigitValue | src/main/java/works/deasil/magparse/MagParse.java:160 | a digit char's value is at most 9 |
| JavaStrings.IndexOf | src/main/java/works/deasil/magparse/MagParse.java:116-118 | the first position of c, with no c before it; -1 exactly when c does not occur |
| JavaStrings.LastIndexOf | src/main/java/works/deasil/magparse/MagParse.java:124 | the last position of c, with no c after it; -1 exactly when c does not occur |
| JavaStrings.ReplaceFirst | src/main/java/works/deasil/magparse/MagParse.java:118 | same length; only the first occurrence changes; unchanged when the char does not occur |
| JavaStrings.RemoveAll | src/main/java/works/deasil/magparse/MagParse.java:123 | replace(c, ""): the input with every c deleted and the other chars kept in order (properties in the four RemoveAll rows below) |
| JavaStrings.RemoveAllOmits | src/main/java/works/deasil/magparse/MagParse.java:123 | no occurrence of the deleted char is left |
| JavaStrings.RemoveAllAbsent | src/main/java/works/deasil/magparse/MagParse.java:123 | a string without the char is left as it is |
| JavaStrings.RemoveAllCounts | src/main/java/works/deasil/magparse/MagParse.java:123 | every other char is kept as many times as it occurred (multiset) |
| JavaStrings.RemoveAllConcat | src/main/java/works/deasil/magparse/MagParse.java:123 | deleting a char distributes over concatenation |
| JavaStrings.TrimStart | src/main/java/works/deasil/magparse/MagParse.java:123 | the leading pass of trim(): drops chars up to U+0020 from the front |
| JavaStrings.TrimEnd | src/main/java/works/deasil/magparse/MagParse.java:123 | the trailing pass of trim(): drops chars up to U+0020 from the back |
| JavaStrings.Trim | src/main/java/works/deasil/magparse/MagParse.java:123 | trim(): both passes (properties in the Trim rows below) |
| JavaStrings.TrimStartShape | src/main/java/works/deasil/magparse/MagParse.java:123 | the leading pass of trim drops a run of chars up to U+0020 and stops at another char |
| JavaStrings.TrimEndShape | src/main/java/works/deasil/magparse/MagParse.java:123 | the trailing pass of trim drops a run of chars up to U+0020 and stops at another char |
| JavaStrings.TrimShape | src/main/java/works/deasil/magparse/MagParse.java:123 | trim's result is no longer than its input and has no blank at either end |
| JavaStrings.TrimPadded | src/main/java/works/deasil/magparse/MagParse.java:129 | trim of a trimmed core padded on both sides with blanks is that core |
| JavaStrings.TrimOfTrimmed | src/main/java/works/deasil/magparse/MagParse.java:136-137 | trim leaves a string with no blank at either end unchanged |
| JavaStrings.TrimIdempotent | src/main/java/works/deasil/magparse/MagParse.java:129 | trim applied twice equals trim applied once |
| JavaStrings.TrimKeepsOut | src/main/java/works/deasil/magparse/MagParse.java:123 | trim introduces no char that was not there |
| JavaStrings.TrimNonEmpty | src/main/java/works/deasil/magparse/MagParse.java:129 | trim of a string holding a char above U+0020 is non-empty |
| JavaStrings.TrimDropsLeadingBlank | src/main/java/works/deasil/magparse/MagParse.java:127-129 | a leading blank does not change trim |
| JavaStrings.Pieces | src/main/java/works/deasil/magparse/MagParse.java:133 | the texts between separators, in order, the last one after the last separator and possibly empty |
| JavaStrings.PiecesSeparatorFree | src/main/java/works/deasil/magparse/MagParse.java:133 | no piece holds the separator |
| JavaStrings.Split | src/main/java/works/deasil/magparse/MagParse.java:133 | split with limit 0: the whole string when the separator does not occur, otherwise the pieces without trailing empty ones |
| JavaStrings.SplitSeparatorFree | src/main/java/works/deasil/magparse/MagParse.java:133-137 | no element of split's result holds the separator, so bits[0] and bits[1] are free of '/' |
| JavaStrings.DropTrailingEmpty | src/main/java/works/deasil/magparse/MagParse.java:133 | the result is a prefix that ends in a non-empty piece, and only empty pieces were dropped |
| JavaStrings.JoinPieces | src/main/java/works/deasil/magparse/MagParse.java:133 | joining the pieces with the separator gives back the input |
| JavaStrings.SplitTwo | src/main/java/works/deasil/magparse/MagParse.java:133 | "a/b" with separator-free sides splits into [a, b], [a] or [], depending on which sides are empty |
| JavaStrings.SplitFirstTwo | src/main/java/works/deasil/magparse/MagParse.java:133-137 | with a separator present and not last, split gives at least two pieces: the text before the first separator and the text up to the next one |
| CardName.NormalizeName | src/main/java/works/deasil/magparse/MagParse.java:115-131 | the field as processName rewrites it before split: with no '/' the first space becomes '/'; with a trailing '/' every '/' is deleted, the text trimmed and, when it holds a space, reordered as the trimmed text from the last space on, '/', the trimmed text before it |
| CardName.PartsOf | src/main/java/works/deasil/magparse/MagParse.java:133-140 | two or more '/'-pieces give last name trim(piece 0) and first name trim(piece 1); otherwise the whole text is the last name and no first name is found |
| CardName.SplitName | src/main/java/works/deasil/magparse/MagParse.java:113-141 | the names processName writes: PartsOf of NormalizeName (one lemma per branch below) |
| CardName.PartsOfTwo | src/main/java/works/deasil/magparse/MagParse.java:133-137 | "A/B" reads as last name trim(A) and first name trim(B) |
| CardName.NoSlashNoSpace | src/main/java/works/deasil/magparse/MagParse.java:116-140 | with no '/' and no space the whole field is the last name, and no first name is set |
| CardName.NoSlashFirstSpace | src/main/java/works/deasil/magparse/MagParse.java:116-140 | with no '/', the first space separates last from first name; with nothing after it the last name keeps the inserted '/' |
| CardName.LastSpaceInside | src/main/java/works/deasil/magparse/MagParse.java:124-128 | in a trimmed string the last space is neither the first nor the last char |
| CardName.TrimFromLastSpace | src/main/java/works/deasil/magparse/MagParse.java:127-129 | trim of substring(index) equals trim of the text after the space |
| CardName.SidesOfLastSpaceNonEmpty | src/main/java/works/deasil/magparse/MagParse.java:126-129 | both sides of the last space are non-empty after trim |
| CardName.SidesOfLastSpaceNoSlash | src/main/java/works/deasil/magparse/MagParse.java:126-129 | neither side of the last space holds a '/' |
| CardName.TrailingSlashLastSpace | src/main/java/works/deasil/magparse/MagParse.java:119-137 | with a trailing '/', the text after the last space is the last name and the text before it the first name |
| CardName.TrailingSlashNoSpace | src/main/java/works/deasil/magparse/MagParse.java:119-140 | with a trailing '/' and no space left, the stripped text is the last name and no first name is set |
| CardName.InnerSlash | src/main/java/works/deasil/magparse/MagParse.java:133-137 | with an inner '/', the first two '/'-pieces, trimmed, are the last and first names |
| CardName.WideStripeLayout | src/main/java/works/deasil/magparse/MagParse.java:115-118 | "LAST FIRST" without '/' reads as last name LAST and first name FIRST |
| CardName.TrailingSlashLayout | src/main/java/works/deasil/magparse/MagParse.java:120-130 | "FIRST LAST" plus blank padding and '/' reads as last name LAST and first name FIRST |
| CardName.ConventionalLayout | src/main/java/works/deasil/magparse/MagParse.java:121 | "LAST/FIRST" reads as last name LAST and first name FIRST |
| CardName.RemoveSlashes | src/main/java/works/deasil/magparse/MagParse.java:123 | deleting every '/' from "A/B/" leaves AB |
| CardName.InnerAndTrailingSlashLayout | src/main/java/works/deasil/magparse/MagParse.java:119-140 | "A/B/" with blank-free sides reads as the single last name AB |
| TrackMatcher.Layout | src/main/java/works/deasil/magparse/MagParse.java:68 | the text groups 1 to 5 read: an optional '%', the code, the number, '^', the name, '^', the expiry |
| TrackMatcher.WellFormed | src/main/java/works/deasil/magparse/MagParse.java:68 | the group constraints: [A-Z], 1 to 19 digits, 2 to 26 chars other than '^', and ExpiryShape |
| TrackMatcher.ExpiryShape | src/main/java/works/deasil/magparse/MagParse.java:68 | the expiry group is four digits or the single '^' |
| TrackMatcher.MatchAt | src/main/java/works/deasil/magparse/MagParse.java:67-68 | the outcome of the pattern at one start position: optional '%', a capital letter, then MatchNumber (sound and complete: MatchAtSound, MatchAtComplete) |
| TrackMatcher.MatchNumber | src/main/java/works/deasil/magparse/MagParse.java:68 | the whole digit run, 1 to 19 long, must end at a '^'; then MatchName |
| TrackMatcher.MatchName | src/main/java/works/deasil/magparse/MagParse.java:68 | the whole run of chars other than '^', 2 to 26 long, must be followed by a '^'; then MatchExpiry |
| TrackMatcher.MatchExpiry | src/main/java/works/deasil/magparse/MagParse.java:68 | four digits are tried first, then a single '^' |
| TrackMatcher.Attempts | src/main/java/works/deasil/magparse/MagParse.java:78 | the attempts find() makes, one per start position 0 to the length of the data inclusive (see FindLeftmost) |
| TrackMatcher.FirstFrom | src/main/java/works/deasil/magparse/MagParse.java:78 | the first successful attempt at or after a position, with that position |
| TrackMatcher.Find | src/main/java/works/deasil/magparse/MagParse.java:78 | find() on a fresh matcher: the leftmost successful attempt (FindLeftmost) |
| TrackMatcher.FindLeftmost | src/main/java/works/deasil/magparse/MagParse.java:78 | find reports the leftmost position where the pattern matches, and none exactly when it matches nowhere |
| TrackMatcher.MatchAtSound | src/main/java/works/deasil/magparse/MagParse.java:67-68 | what the recognizer returns is a well-formed record laid out at that position |
| TrackMatcher.MatchAtComplete | src/main/java/works/deasil/magparse/MagParse.java:67-68 | any well-formed record laid out at a position is what the recognizer returns there |
| TrackMatcher.PlacedLayout | src/main/java/works/deasil/magparse/MagParse.java:68 | the record text occurs when each of its pieces occurs at its offset |
| TrackMatcher.LayoutPlaced | src/main/java/works/deasil/magparse/MagParse.java:68 | each piece occurs at its offset when the record text occurs |
| TrackMatcher.MatchExpirySound | src/main/java/works/deasil/magparse/MagParse.java:68 | the expiry group is four digits or "^", read at its position |
| TrackMatcher.MatchExpiryComplete | src/main/java/works/deasil/magparse/MagParse.java:68 | four digits are preferred to "^" and either is accepted |
| TrackMatcher.LayoutUnique | src/main/java/works/deasil/magparse/MagParse.java:67-68 | at a given position at most one well-formed record can be read |
| TrackMatcher.TrailingContentIgnored | src/main/java/works/deasil/magparse/MagParse.java:68 | at a position where a record matches, appended text leaves that match unchanged |
| TrackMatcher.FindIgnoresTail | src/main/java/works/deasil/magparse/MagParse.java:78 | once the data holds a record, text appended after it never changes what find() reports |
| TrackMatcher.LeadingJunkSkipped | src/main/java/works/deasil/magparse/MagParse.java:78 | a record after text with no '%' and no capital letter is found right after that text |
| TrackMatcher.AnyJunkStillFinds | src/main/java/works/deasil/magparse/MagParse.java:78 | whatever text precedes a record, find() reports a record at or before the record's position |
| TrackMatcher.NoLetterNoMatch | src/main/java/works/deasil/magparse/MagParse.java:78 | text without a capital letter holds no record |
| TrackMatcher.FindSound | src/main/java/works/deasil/magparse/MagParse.java:78-82 | the reported groups form a well-formed record that occurs at the reported position |
| TrackMatcher.FindAt | src/main/java/works/deasil/magparse/MagParse.java:78 | a match with no match before it is the one find reports |
| TrackMatcher.RecordAtStart | src/main/java/works/deasil/magparse/MagParse.java:78-82 | a well-formed record at the start of the data is reported at position 0, whatever follows |
| Luhn.LuhnTerm | src/main/java/works/deasil/magparse/MagParse.java:161-166 | one digit's contribution, at most 9: the digit itself, or doubled with 9 subtracted when above 9 |
| Luhn.LuhnSum | src/main/java/works/deasil/magparse/MagParse.java:157-169 | the sum of the contributions, a digit being doubled when its distance from the right end is odd |
| Luhn.LuhnValid | src/main/java/works/deasil/magparse/MagParse.java:170 | the number passes when the sum is a multiple of 10 |
| Luhn.LuhnTermIsDigitSum | src/main/java/works/deasil/magparse/MagParse.java:161-166 | the doubled contribution is the digit sum of the product, i.e. 2n or 2n - 9 |
| Luhn.LuhnTermInjective | src/main/java/works/deasil/magparse/MagParse.java:161-166 | at one position different digits contribute different amounts, each at most 9 |
| Luhn.LuhnSumDifference | src/main/java/works/deasil/magparse/MagParse.java:159-169 | numbers differing at one digit have sums differing by those two contributions |
| Luhn.SingleDigitErrorDetected | src/main/java/works/deasil/magparse/MagParse.java:156-171 | changing one digit of a passing number makes it fail |
| Luhn.LuhnSumBound | src/main/java/works/deasil/magparse/MagParse.java:167 | each digit adds at most 9 to the sum |
| Luhn.TestCardPasses | src/main/java/works/deasil/magparse/MagParse.java:156-171 | 4111111111111111 passes |
| Expiration.SwapHalves | src/main/java/works/deasil/magparse/MagParse.java:151 | the result has four chars: chars 2 to 4 of the field, then chars 0 to 2 |
| Expiration.MonthFirst | src/main/java/works/deasil/magparse/MagParse.java:151 | YY followed by MM comes out as MMYY |
| Expiration.SwapKeepsDigits | src/main/java/works/deasil/magparse/MagParse.java:151 | the result has four chars, and digits stay digits |
| Expiration.ExampleExpiry | src/main/java/works/deasil/magparse/MagParse.java:151 | "2901" becomes "0129" |
| ParseProperties.NoRecordRejected | src/main/java/works/deasil/magparse/MagParse.java:78-87 | without a match the card is invalid, carries the invalid-card message, and has no field filled in |
| ParseProperties.WrongFormatRejected | src/main/java/works/deasil/magparse/MagParse.java:89-94 | a format code other than B is rejected the same way |
| ParseProperties.FirstRecordDecides | src/main/java/works/deasil/magparse/MagParse.java:78-94 | a leftmost non-B record is rejected even when a format B record follows |
| ParseProperties.FormatBOutcome | src/main/java/works/deasil/magparse/MagParse.java:96-98 | for a format B record, each field and the message follow from the Luhn result and the expiry length |
| ParseProperties.ValidIff | src/main/java/works/deasil/magparse/MagParse.java:65-154 | valid if and only if the leftmost record is format B, passes Luhn and has a four-char expiry |
| ParseProperties.ExpirationMessageWins | src/main/java/works/deasil/magparse/MagParse.java:96-98 | with a failing number and a short expiry, the expiration message is the one kept and the name is still set |
| ParseProperties.ShortExpiryIsMissing | src/main/java/works/deasil/magparse/MagParse.java:68 | the only expiry shorter than four chars that the pattern admits is "^" |
| ParseProperties.NoSumOverflow | src/main/java/works/deasil/magparse/MagParse.java:157-167 | the loop's int sum stays at most 171, far from overflow |
| ParseProperties.TrailingDataIgnored | src/main/java/works/deasil/magparse/MagParse.java:78-98 | once the data holds a record, appending text changes no field but magData |
| ParseExamples.TestCardAccepted | src/main/java/works/deasil/magparse/MagParse.java:43-53 | the test stripe for John Doe yields number 4111111111111111, expiry 0129, JOHN DOE, valid, with no message |
| ParseExamples.GarbageRejected | src/main/java/works/deasil/magparse/MagParse.java:78-87 | "garbage-not-a-track" is rejected |
| ParseExamples.FormatARejected | src/main/java/works/deasil/magparse/MagParse.java:89-94 | the same record with format code A is rejected |
| ParseExamples.WideStripeName | src/main/java/works/deasil/magparse/MagParse.java:115-118 | "LOY DARLA E" gives last name LOY and first name DARLA E |
| ParseExamples.TrailingSlashName | src/main/java/works/deasil/magparse/MagParse.java:120-122 | "FIRSTNAME M LASTNAME        /" gives last name LASTNAME and first name FIRSTNAME M |

## Left out

- The general regular-expression engine. The pattern is modelled only through
  its first five groups. Everything after the expiry group can match the empty
  string: the service code, the discretionary data, the optional '?', up to two
  blanks and `.*`. So those parts never decide whether a match exists. Groups 1,
  6 and 7 are never read.
- `setMessage` is a private one-line setter. It is written inline as an
  assignment to `message`.
- A null `magData` argument. Java's matcher would throw `NullPointerException`;
  the constructor here takes a string.
- MagParser.MagParse.LuhnCheck: requires a digit string. On other text Java's
  `Integer.parseInt` throws `NumberFormatException`; `chop` only ever passes the
  digits-only number group.
- MagParser.MagParse.ProcessCreditCardNum: requires a digit string, for the
  same reason as `LuhnCheck`.
- Java `int` arithmetic in `luhnCheck` is written with unbounded integers. This
  is exact because the sum stays at most 171 (`NoSumOverflow`).
- Java `char` is a UTF-16 code unit and Dafny's `char` is a Unicode scalar
  value. Surrogate pairs in a name are not modelled. The operations used
  compare single chars only, and comparisons with ASCII chars agree in both
  views.
- ParseExamples.TrailingSlashName: proved on `SplitName` directly, not through
  the whole parse. The name in the source's comment,
  `FIRSTNAME M LASTNAME        /`, is 29 chars long, and the name group admits
  at most 26.
