/**
 The track pattern of MagParse.chop: an ISO/IEC 7813 Track 1 record
 "%B<number>^<name>^<YYMM>..." looked for with Matcher.find(), i.e. at the
 leftmost position where it matches, with anything allowed before and after.

 Only the groups the parser reads are modelled: the format code, the number,
 the name and the expiry. What follows the expiry in the pattern (service code,
 discretionary data, an optional '?', up to two blanks and ".*") is all optional
 and so can never make a match fail.

 For those four groups the backtracking matcher is deterministic at each start
 position: the number must be the whole run of digits that ends at a '^' (fewer
 digits would leave a digit where '^' is needed), the name the whole run of
 non-'^' chars, giving up an optional leading '%' leaves '%' where a letter is
 needed, and the expiry alternative tries four digits first and then a '^'.
 MatchAt below is that deterministic recognizer; Layout states the grammar.
 */
module TrackMatcher {
  import opened Wrappers
  import opened Chars

  /** Groups 2 to 5 of the pattern. */
  datatype Track = Track(code: char, number: string, name: string, expiry: string)

  // ---------------------------------------------------------------------
  // The grammar

  /** The record text the pattern reads, with or without the leading '%'. */
  function Layout(t: Track, percent: bool): (r: string) {
    (if percent then "%" else "") + [t.code] + t.number + "^" + t.name + "^" + t.expiry
  }

  /** The record text from the number on: number '^' name '^' expiry. */
  function NumberText(t: Track): (r: string) {
    t.number + ("^" + NameText(t))
  }

  /** The record text from the name on: name '^' expiry. */
  function NameText(t: Track): (r: string) {
    t.name + ("^" + t.expiry)
  }

  /** The field constraints of the pattern: [A-Z], [0-9]{1,19}, [^^]{2,26}, [0-9]{4}|^ . */
  predicate WellFormed(t: Track) {
    && IsUpper(t.code)
    && 1 <= |t.number| <= 19 && AllDigits(t.number)
    && 2 <= |t.name| <= 26 && '^' !in t.name
    && ExpiryShape(t.expiry)
  }

  /** "[0-9]{4}|\\^": four digits, or the single '^' standing for a missing expiry. */
  predicate ExpiryShape(x: string) {
    (|x| == 4 && AllDigits(x)) || x == "^"
  }

  /** w occurs in s at position i. */
  predicate OccursAt(w: string, s: string, i: nat) {
    i + |w| <= |s| && s[i..i + |w|] == w
  }

  // ---------------------------------------------------------------------
  // The recognizer

  /** Length of the run of digits starting at p. */
  function DigitRun(s: string, p: nat): (n: nat)
    requires p <= |s|
    ensures p + n <= |s|
    ensures forall j :: p <= j < p + n ==> IsDigit(s[j])
    ensures p + n == |s| || !IsDigit(s[p + n])
    decreases |s| - p
  {
    if p < |s| && IsDigit(s[p]) then 1 + DigitRun(s, p + 1) else 0
  }

  /** Length of the run of chars other than '^' starting at p. */
  function NameRun(s: string, p: nat): (n: nat)
    requires p <= |s|
    ensures p + n <= |s|
    ensures forall j :: p <= j < p + n ==> s[j] != '^'
    ensures p + n == |s| || s[p + n] == '^'
    decreases |s| - p
  {
    if p < |s| && s[p] != '^' then 1 + NameRun(s, p + 1) else 0
  }

  /** The outcome of trying the pattern at start position i: "%?" then "([A-Z])". */
  function MatchAt(s: string, i: nat): (o: Option<Track>)
    requires i <= |s|
  {
    var p := if i < |s| && s[i] == '%' then i + 1 else i;
    if p < |s| && IsUpper(s[p]) then MatchNumber(s, s[p], p + 1) else None
  }

  /** "([0-9]{1,19})\^" at q. */
  function MatchNumber(s: string, code: char, q: nat): (o: Option<Track>)
    requires q <= |s|
  {
    var k := DigitRun(s, q);
    if 1 <= k <= 19 && q + k < |s| && s[q + k] == '^' then MatchName(s, code, s[q..q + k], q + k + 1)
    else None
  }

  /** "([^\^]{2,26})\^" at r. */
  function MatchName(s: string, code: char, number: string, r: nat): (o: Option<Track>)
    requires r <= |s|
  {
    var m := NameRun(s, r);
    if 2 <= m <= 26 && r + m < |s| then MatchExpiry(s, code, number, s[r..r + m], r + m + 1)
    else None
  }

  /** "([0-9]{4}|\^)" at e: four digits are tried first. */
  function MatchExpiry(s: string, code: char, number: string, name: string, e: nat): (o: Option<Track>)
    requires e <= |s|
  {
    if e + 4 <= |s| && AllDigits(s[e..e + 4]) then Some(Track(code, number, name, s[e..e + 4]))
    else if e < |s| && s[e] == '^' then Some(Track(code, number, name, "^"))
    else None
  }

  /** The outcome of the pattern at every start position, 0 to |s| inclusive. */
  function Attempts(s: string): (a: seq<Option<Track>>)
  {
    seq(|s| + 1, j requires 0 <= j <= |s| => MatchAt(s, j))
  }

  /** The first successful attempt at or after position i, with its position. */
  function FirstFrom(a: seq<Option<Track>>, i: nat): (r: Option<(nat, Track)>)
    requires i <= |a|
    decreases |a| - i
  {
    if i == |a| then None
    else if a[i].Some? then Some((i, a[i].value))
    else FirstFrom(a, i + 1)
  }

  /** Matcher.find() on a fresh matcher: start positions are tried from left to right. */
  function Find(s: string): (r: Option<(nat, Track)>) {
    FirstFrom(Attempts(s), 0)
  }

  /**
   FirstFrom reports the leftmost successful attempt at or after i, and
   reports none exactly when every attempt from i on failed.
   */
  lemma {:induction false} FirstFromLeftmost(a: seq<Option<Track>>, i: nat)
    requires i <= |a|
    ensures var r := FirstFrom(a, i);
            && (r.Some? ==>
                  && i <= r.value.0 < |a| && a[r.value.0] == Some(r.value.1)
                  && forall j :: i <= j < r.value.0 ==> a[j].None?)
            && (r.None? ==> forall j :: i <= j < |a| ==> a[j].None?)
    decreases |a| - i
  {
    if i < |a| && a[i].None? {
      FirstFromLeftmost(a, i + 1);
    }
  }

  /** FirstFrom walks over failed attempts. */
  lemma {:induction false} FirstSkips(a: seq<Option<Track>>, i: nat, n: nat)
    requires i <= n <= |a| && forall j :: i <= j < n ==> a[j].None?
    ensures FirstFrom(a, i) == FirstFrom(a, n)
    decreases n - i
  {
    if i < n {
      FirstSkips(a, i + 1, n);
    }
  }

  /**
   find() reports the leftmost start position where the pattern matches, with
   what matched there; it reports no match exactly when the pattern matches at
   no position.
   */
  lemma FindLeftmost(s: string)
    ensures var r := Find(s);
            && (r.Some? ==>
                  && r.value.0 <= |s| && MatchAt(s, r.value.0) == Some(r.value.1)
                  && forall j :: 0 <= j < r.value.0 ==> MatchAt(s, j).None?)
            && (r.None? ==> forall j :: 0 <= j <= |s| ==> MatchAt(s, j).None?)
  {
    var a := Attempts(s);
    FirstFromLeftmost(a, 0);
    var r := FirstFrom(a, 0);
    if r.Some? {
      forall j | 0 <= j < r.value.0 ensures MatchAt(s, j).None? {
        assert a[j].None?;
      }
    } else {
      forall j | 0 <= j <= |s| ensures MatchAt(s, j).None? {
        assert a[j].None?;
      }
    }
  }

  // ---------------------------------------------------------------------
  // The recognizer agrees with the grammar

  /** The pieces of Layout(t, percent), each at its own offset from i. */
  predicate Placed(s: string, i: nat, t: Track, percent: bool) {
    var lead: string := if percent then "%" else "";
    && OccursAt(lead, s, i)
    && OccursAt([t.code], s, i + |lead|)
    && NumberPlaced(s, i + |lead| + 1, t)
  }

  /** number, '^', then the name and what follows it, from q on. */
  predicate NumberPlaced(s: string, q: nat, t: Track) {
    && OccursAt(t.number, s, q)
    && OccursAt("^", s, q + |t.number|)
    && NamePlaced(s, q + |t.number| + 1, t)
  }

  /** name, '^', expiry, from r on. */
  predicate NamePlaced(s: string, r: nat, t: Track) {
    && OccursAt(t.name, s, r)
    && OccursAt("^", s, r + |t.name|)
    && OccursAt(t.expiry, s, r + |t.name| + 1)
  }

  lemma OccursConcat(a: string, b: string, s: string, i: nat)
    requires OccursAt(a, s, i) && OccursAt(b, s, i + |a|)
    ensures OccursAt(a + b, s, i)
  {
    var j := i + |a|;
    assert s[i..j + |b|] == s[i..j] + s[j..j + |b|];
  }

  lemma OccursSplit(a: string, b: string, s: string, i: nat)
    requires OccursAt(a + b, s, i)
    ensures OccursAt(a, s, i) && OccursAt(b, s, i + |a|)
  {
    var j := i + |a|;
    assert s[i..j] == s[i..j + |b|][..|a|] == (a + b)[..|a|] == a;
    assert s[j..j + |b|] == s[i..j + |b|][|a|..] == (a + b)[|a|..] == b;
  }

  lemma OccursSingle(c: char, s: string, p: nat)
    ensures OccursAt([c], s, p) <==> p < |s| && s[p] == c
  {
    if p < |s| {
      assert s[p..p + 1] == [s[p]];
    }
  }

  /** Layout regrouped from the right: the lead, the code, then the text from the number on. */
  lemma LayoutNested(t: Track, percent: bool)
    ensures Layout(t, percent) == (if percent then "%" else "") + ([t.code] + NumberText(t))
  {
  }

  /** x, '^' and y side by side make x + ("^" + y). */
  lemma JoinCaret(x: string, y: string, s: string, q: nat)
    requires OccursAt(x, s, q) && OccursAt("^", s, q + |x|) && OccursAt(y, s, q + |x| + 1)
    ensures OccursAt(x + ("^" + y), s, q)
  {
    OccursConcat("^", y, s, q + |x|);
    OccursConcat(x, "^" + y, s, q);
  }

  /** The pieces of x + ("^" + y), each at its offset. */
  lemma SplitCaret(x: string, y: string, s: string, q: nat)
    requires OccursAt(x + ("^" + y), s, q)
    ensures OccursAt(x, s, q) && OccursAt("^", s, q + |x|) && OccursAt(y, s, q + |x| + 1)
  {
    OccursSplit(x, "^" + y, s, q);
    OccursSplit("^", y, s, q + |x|);
  }

  lemma NumberTextPlaced(s: string, q: nat, t: Track)
    requires NumberPlaced(s, q, t)
    ensures OccursAt(NumberText(t), s, q)
  {
    JoinCaret(t.name, t.expiry, s, q + |t.number| + 1);
    JoinCaret(t.number, NameText(t), s, q);
  }

  lemma PlacedNumberText(s: string, q: nat, t: Track)
    requires OccursAt(NumberText(t), s, q)
    ensures NumberPlaced(s, q, t)
  {
    SplitCaret(t.number, NameText(t), s, q);
    SplitCaret(t.name, t.expiry, s, q + |t.number| + 1);
  }

  /** Layout(t, percent) occurs at i when each of its pieces does. */
  lemma PlacedLayout(s: string, i: nat, t: Track, percent: bool)
    requires Placed(s, i, t, percent)
    ensures OccursAt(Layout(t, percent), s, i)
  {
    var lead: string := if percent then "%" else "";
    NumberTextPlaced(s, i + |lead| + 1, t);
    OccursConcat([t.code], NumberText(t), s, i + |lead|);
    OccursConcat(lead, [t.code] + NumberText(t), s, i);
    NestedOccurs(s, i, t, percent);
  }

  lemma NestedOccurs(s: string, i: nat, t: Track, percent: bool)
    requires OccursAt((if percent then "%" else "") + ([t.code] + NumberText(t)), s, i)
    ensures OccursAt(Layout(t, percent), s, i)
  {
    LayoutNested(t, percent);
  }

  lemma OccursNested(s: string, i: nat, t: Track, percent: bool)
    requires OccursAt(Layout(t, percent), s, i)
    ensures OccursAt((if percent then "%" else "") + ([t.code] + NumberText(t)), s, i)
  {
    LayoutNested(t, percent);
  }

  /** Each piece of Layout(t, percent) occurs at its offset when the whole does. */
  lemma LayoutPlaced(s: string, i: nat, t: Track, percent: bool)
    requires OccursAt(Layout(t, percent), s, i)
    ensures Placed(s, i, t, percent)
  {
    var lead: string := if percent then "%" else "";
    OccursNested(s, i, t, percent);
    OccursSplit(lead, [t.code] + NumberText(t), s, i);
    OccursSplit([t.code], NumberText(t), s, i + |lead|);
    PlacedNumberText(s, i + |lead| + 1, t);
  }

  lemma MatchExpirySound(s: string, code: char, number: string, name: string, e: nat)
    requires e <= |s| && MatchExpiry(s, code, number, name, e).Some?
    ensures var t := MatchExpiry(s, code, number, name, e).value;
            t == Track(code, number, name, t.expiry) && ExpiryShape(t.expiry) && OccursAt(t.expiry, s, e)
  {
    if !(e + 4 <= |s| && AllDigits(s[e..e + 4])) {
      OccursSingle('^', s, e);
    }
  }

  lemma MatchExpiryComplete(s: string, code: char, number: string, name: string, e: nat, x: string)
    requires e <= |s| && ExpiryShape(x) && OccursAt(x, s, e)
    ensures MatchExpiry(s, code, number, name, e) == Some(Track(code, number, name, x))
  {
    if x == "^" {
      OccursSingle('^', s, e);
      assert !(e + 4 <= |s| && AllDigits(s[e..e + 4])) by {
        if e + 4 <= |s| { assert s[e..e + 4][0] == s[e]; }
      }
    }
  }

  lemma MatchNameSound(s: string, code: char, number: string, r: nat)
    requires r <= |s| && MatchName(s, code, number, r).Some?
    ensures var t := MatchName(s, code, number, r).value;
            var m := |t.name|;
            && t.code == code && t.number == number
            && 2 <= m <= 26 && '^' !in t.name && ExpiryShape(t.expiry) && NamePlaced(s, r, t)
  {
    var m := NameRun(s, r);
    var name := s[r..r + m];
    MatchExpirySound(s, code, number, name, r + m + 1);
    OccursSingle('^', s, r + m);
    assert forall j :: 0 <= j < m ==> name[j] == s[r + j];
  }

  lemma MatchNameComplete(s: string, code: char, number: string, r: nat, name: string, x: string)
    requires r <= |s| && 2 <= |name| <= 26 && '^' !in name && ExpiryShape(x)
    requires NamePlaced(s, r, Track(code, number, name, x))
    ensures MatchName(s, code, number, r) == Some(Track(code, number, name, x))
  {
    var m := |name|;
    OccursSingle('^', s, r + m);
    forall j | r <= j < r + m ensures s[j] != '^' {
      assert s[j] == name[j - r];
    }
    NameRunExact(s, r, m);
    MatchExpiryComplete(s, code, number, name, r + m + 1, x);
  }

  lemma MatchNumberSound(s: string, code: char, q: nat)
    requires q <= |s| && MatchNumber(s, code, q).Some?
    ensures var t := MatchNumber(s, code, q).value;
            && t.code == code
            && 1 <= |t.number| <= 19 && AllDigits(t.number)
            && 2 <= |t.name| <= 26 && '^' !in t.name && ExpiryShape(t.expiry)
            && NumberPlaced(s, q, t)
  {
    var k := DigitRun(s, q);
    var number := s[q..q + k];
    assert MatchNumber(s, code, q) == MatchName(s, code, number, q + k + 1);
    MatchNameSound(s, code, number, q + k + 1);
    assert OccursAt("^", s, q + k) by {
      OccursSingle('^', s, q + k);
    }
    assert AllDigits(number) by {
      assert forall j :: 0 <= j < k ==> number[j] == s[q + j];
    }
  }

  lemma MatchNumberComplete(s: string, code: char, q: nat, t: Track)
    requires q <= |s| && t.code == code
    requires 1 <= |t.number| <= 19 && AllDigits(t.number)
    requires 2 <= |t.name| <= 26 && '^' !in t.name && ExpiryShape(t.expiry)
    requires NumberPlaced(s, q, t)
    ensures MatchNumber(s, code, q) == Some(t)
  {
    var k := |t.number|;
    OccursSingle('^', s, q + k);
    forall j | q <= j < q + k ensures IsDigit(s[j]) {
      assert s[j] == t.number[j - q];
    }
    DigitRunExact(s, q, k);
    MatchNameComplete(s, code, t.number, q + k + 1, t.name, t.expiry);
  }

  /** The recognizer's result, piece by piece. */
  lemma MatchAtPlaced(s: string, i: nat)
    requires i <= |s| && MatchAt(s, i).Some?
    ensures i < |s|
    ensures var t := MatchAt(s, i).value;
            WellFormed(t) && Placed(s, i, t, s[i] == '%')
  {
    var pct := s[i] == '%';
    var lead: string := if pct then "%" else "";
    var p := i + |lead|;
    assert MatchAt(s, i) == MatchNumber(s, s[p], p + 1);
    var t := MatchAt(s, i).value;
    MatchNumberSound(s, s[p], p + 1);
    assert OccursAt(lead, s, i) by {
      if pct { OccursSingle('%', s, i); }
    }
    OccursSingle(s[p], s, p);
    assert WellFormed(t);
  }

  /** A well-formed record laid out piece by piece is what the recognizer finds. */
  lemma PlacedMatchAt(s: string, i: nat, t: Track, percent: bool)
    requires i <= |s| && WellFormed(t) && Placed(s, i, t, percent)
    ensures MatchAt(s, i) == Some(t)
  {
    var lead: string := if percent then "%" else "";
    var p := i + |lead|;
    OccursSingle(t.code, s, p);
    assert percent ==> s[i..i + 1][0] == '%';
    MatchNumberComplete(s, t.code, p + 1, t);
  }

  /** What the recognizer returns is a well-formed record that occurs at i. */
  lemma MatchAtSound(s: string, i: nat)
    requires i <= |s| && MatchAt(s, i).Some?
    ensures i < |s|
    ensures var t := MatchAt(s, i).value;
            WellFormed(t) && OccursAt(Layout(t, s[i] == '%'), s, i)
  {
    MatchAtPlaced(s, i);
    PlacedLayout(s, i, MatchAt(s, i).value, s[i] == '%');
  }

  /** Every well-formed record that occurs at i is what the recognizer returns there. */
  lemma MatchAtComplete(s: string, i: nat, t: Track, percent: bool)
    requires i <= |s| && WellFormed(t) && OccursAt(Layout(t, percent), s, i)
    ensures MatchAt(s, i) == Some(t)
  {
    LayoutPlaced(s, i, t, percent);
    PlacedMatchAt(s, i, t, percent);
  }

  lemma DigitRunExact(s: string, p: nat, k: nat)
    requires p + k < |s| && (forall j :: p <= j < p + k ==> IsDigit(s[j])) && !IsDigit(s[p + k])
    ensures DigitRun(s, p) == k
  {
  }

  lemma NameRunExact(s: string, p: nat, k: nat)
    requires p + k < |s| && (forall j :: p <= j < p + k ==> s[j] != '^') && s[p + k] == '^'
    ensures NameRun(s, p) == k
  {
  }

  // ---------------------------------------------------------------------
  // Consequences

  /** A record is read in only one way: two well-formed readings at one position agree. */
  lemma LayoutUnique(s: string, i: nat, t1: Track, pct1: bool, t2: Track, pct2: bool)
    requires i <= |s| && WellFormed(t1) && OccursAt(Layout(t1, pct1), s, i)
    requires WellFormed(t2) && OccursAt(Layout(t2, pct2), s, i)
    ensures t1 == t2
  {
    MatchAtComplete(s, i, t1, pct1);
    MatchAtComplete(s, i, t2, pct2);
  }

  /** Trailing content after a record never changes what is matched at its position. */
  lemma TrailingContentIgnored(s: string, tail: string, i: nat)
    requires i <= |s| && MatchAt(s, i).Some?
    ensures MatchAt(s + tail, i) == MatchAt(s, i)
  {
    MatchAtSound(s, i);
    var t := MatchAt(s, i).value;
    var w := Layout(t, s[i] == '%');
    assert (s + tail)[i..i + |w|] == s[i..i + |w|];
    MatchAtComplete(s + tail, i, t, s[i] == '%');
  }

  /** Text at the start of rec occurs right after junk in junk + rec. */
  lemma OccursShift(w: string, junk: string, rec: string)
    requires OccursAt(w, rec, 0)
    ensures OccursAt(w, junk + rec, |junk|)
  {
    assert (junk + rec)[|junk|..|junk| + |w|] == rec[..|w|];
  }

  /** No attempt starts inside a prefix holding no '%' and no capital letter. */
  lemma NoStartInPrefix(s: string, n: nat)
    requires n <= |s| && forall j :: 0 <= j < n ==> s[j] != '%' && !IsUpper(s[j])
    ensures forall j :: 0 <= j < n ==> MatchAt(s, j).None?
  {
  }

  /** A record preceded by text holding no '%' and no capital letter is found right after that text. */
  lemma LeadingJunkSkipped(junk: string, rec: string)
    requires forall j :: 0 <= j < |junk| ==> junk[j] != '%' && !IsUpper(junk[j])
    requires MatchAt(rec, 0).Some?
    ensures Find(junk + rec) == Some((|junk|, MatchAt(rec, 0).value))
  {
    var s := junk + rec;
    var t := MatchAt(rec, 0).value;
    assert MatchAt(s, |junk|) == Some(t) by {
      MatchAtSound(rec, 0);
      OccursShift(Layout(t, rec[0] == '%'), junk, rec);
      MatchAtComplete(s, |junk|, t, rec[0] == '%');
    }
    assert forall j :: 0 <= j < |junk| ==> MatchAt(s, j).None? by {
      assert forall j :: 0 <= j < |junk| ==> s[j] == junk[j];
      NoStartInPrefix(s, |junk|);
    }
    FindAt(s, |junk|);
  }

  /** Whatever text precedes a record, find() still reports a record, at or before the record's position. */
  lemma AnyJunkStillFinds(junk: string, rec: string)
    requires MatchAt(rec, 0).Some?
    ensures Find(junk + rec).Some? && Find(junk + rec).value.0 <= |junk|
  {
    var s := junk + rec;
    var t := MatchAt(rec, 0).value;
    MatchAtSound(rec, 0);
    OccursShift(Layout(t, rec[0] == '%'), junk, rec);
    MatchAtComplete(s, |junk|, t, rec[0] == '%');
    FindLeftmost(s);
  }

  /** Without a capital letter there is no track at all. */
  lemma NoLetterNoMatch(s: string)
    requires forall j :: 0 <= j < |s| ==> !IsUpper(s[j])
    ensures Find(s) == None
  {
    var a := Attempts(s);
    forall j | 0 <= j <= |s| ensures a[j].None? {
      var p := if j < |s| && s[j] == '%' then j + 1 else j;
      assert p == |s| || !IsUpper(s[p]);
    }
    FirstSkips(a, 0, |a|);
  }

  /** What find() reports is a well-formed record that occurs where it says. */
  lemma FindSound(s: string)
    requires Find(s).Some?
    ensures Find(s).value.0 < |s|
    ensures var (i, t) := Find(s).value;
            WellFormed(t) && OccursAt(Layout(t, s[i] == '%'), s, i)
  {
    FindLeftmost(s);
    MatchAtSound(s, Find(s).value.0);
  }

  /** The first position where the pattern matches is the one find() reports. */
  lemma FindAt(s: string, i: nat)
    requires i <= |s| && MatchAt(s, i).Some?
    requires forall j :: 0 <= j < i ==> MatchAt(s, j).None?
    ensures Find(s) == Some((i, MatchAt(s, i).value))
  {
    var a := Attempts(s);
    forall j | 0 <= j < i ensures a[j].None? {
      assert a[j] == MatchAt(s, j);
    }
    FirstSkips(a, 0, i);
  }

  /** A well-formed record at the very start of the data is what find() reports, whatever follows it. */
  lemma RecordAtStart(t: Track, percent: bool, tail: string)
    requires WellFormed(t)
    ensures Find(Layout(t, percent) + tail) == Some((0, t))
  {
    var w := Layout(t, percent);
    var s := w + tail;
    assert s[0..|w|] == w;
    MatchAtComplete(s, 0, t, percent);
  }

  // ---------------------------------------------------------------------
  // Appending text after the first record

  /** Text that occurs in s + tail and ends inside s occurs in s. */
  lemma OccursRestrict(w: string, s: string, tail: string, a: nat)
    requires OccursAt(w, s + tail, a) && a + |w| <= |s|
    ensures OccursAt(w, s, a)
  {
    assert (s + tail)[a..a + |w|] == s[a..a + |w|];
  }

  /** The char at x of text occurring at a is the text's char at x - a. */
  lemma OccursIndex(w: string, s: string, a: nat, x: nat)
    requires OccursAt(w, s, a) && a <= x < a + |w|
    ensures s[x] == w[x - a]
  {
    assert s[a..a + |w|][x - a] == s[x];
  }

  /** Digits followed by a '^' end before a char at d that is neither. */
  lemma DigitsEndBefore(w: string, s: string, q: nat, d: nat)
    requires OccursAt(w, s, q) && AllDigits(w) && OccursAt("^", s, q + |w|)
    requires q <= d < |s| && !IsDigit(s[d]) && s[d] != '^'
    ensures q + |w| < d
  {
    if d < q + |w| {
      OccursIndex(w, s, q, d);
    } else if d == q + |w| {
      OccursSingle('^', s, d);
    }
  }

  /** Text without '^' ends at or before a '^' at c. */
  lemma NameEndsBefore(w: string, s: string, r: nat, c: nat)
    requires OccursAt(w, s, r) && '^' !in w && r <= c < |s| && s[c] == '^'
    ensures r + |w| <= c
  {
    if c < r + |w| {
      OccursIndex(w, s, r, c);
    }
  }

  /** Name, '^' and expiry placed in s + tail and ending by |s| are placed in s. */
  lemma NamePlacedRestrict(s: string, tail: string, r: nat, t: Track)
    requires NamePlaced(s + tail, r, t) && r + |t.name| + 1 + |t.expiry| <= |s|
    ensures NamePlaced(s, r, t)
  {
    OccursRestrict(t.name, s, tail, r);
    OccursRestrict("^", s, tail, r + |t.name|);
    OccursRestrict(t.expiry, s, tail, r + |t.name| + 1);
  }

  /** Likewise from the number on. */
  lemma NumberPlacedRestrict(s: string, tail: string, q: nat, t: Track)
    requires NumberPlaced(s + tail, q, t) && q + |t.number| + 1 + |t.name| + 1 + |t.expiry| <= |s|
    ensures NumberPlaced(s, q, t)
  {
    var r := q + |t.number| + 1;
    assert NamePlaced(s, r, t) by {
      NamePlacedRestrict(s, tail, r, t);
    }
    assert OccursAt(t.number, s, q) by {
      OccursRestrict(t.number, s, tail, q);
    }
    assert OccursAt("^", s, q + |t.number|) by {
      OccursRestrict("^", s, tail, q + |t.number|);
    }
  }

  /**
   A well-formed record placed at j whose code letter comes before a char at d
   that is neither a digit nor '^', where a '^' at c follows, ends by c + 5: the
   digits cannot run past d, and the name cannot run past c.
   */
  lemma PlacedEnd(s: string, j: nat, t: Track, percent: bool, d: nat, c: nat)
    requires WellFormed(t) && Placed(s, j, t, percent)
    requires j + (if percent then 1 else 0) < d < c < |s|
    requires !IsDigit(s[d]) && s[d] != '^' && s[c] == '^'
    ensures var q := j + (if percent then 1 else 0) + 1;
            q + |t.number| + 1 + |t.name| + 1 + |t.expiry| <= c + 5
  {
    var q := j + (if percent then 1 else 0) + 1;
    DigitsEndBefore(t.number, s, q, d);
    NameEndsBefore(t.name, s, q + |t.number| + 1, c);
  }

  /** A record placed in s + tail that ends inside s is placed in s. */
  lemma PlacedRestrict(s: string, tail: string, j: nat, t: Track, percent: bool)
    requires Placed(s + tail, j, t, percent)
    requires j + (if percent then 1 else 0) + 1 + |t.number| + 1 + |t.name| + 1 + |t.expiry| <= |s|
    ensures Placed(s, j, t, percent)
  {
    var lead: string := if percent then "%" else "";
    NumberPlacedRestrict(s, tail, j + |lead| + 1, t);
    OccursRestrict(lead, s, tail, j);
    OccursRestrict([t.code], s, tail, j + |lead|);
  }

  /**
   An attempt that fails before a successful one at i reads its code letter
   before i's: only a '%' right before an unmarked record reaches that letter,
   and such an attempt is the record's own.
   */
  lemma EarlierAttemptStartsBefore(s: string, i: nat, j: nat)
    requires i <= |s| && MatchAt(s, i).Some? && j < i && MatchAt(s, j).None?
    ensures (if s[j] == '%' then j + 1 else j) < i + (if s[i] == '%' then 1 else 0)
  {
  }

  /**
   A record found at i has its code letter, neither a digit nor '^', at c0, and
   its first '^' at c1 with at least four more chars after it.
   */
  lemma RecordMarks(s: string, i: nat) returns (c0: nat, c1: nat)
    requires i <= |s| && MatchAt(s, i).Some?
    ensures i < |s| && c0 == i + (if s[i] == '%' then 1 else 0)
    ensures c0 < c1 && c1 + 5 <= |s|
    ensures !IsDigit(s[c0]) && s[c0] != '^' && s[c1] == '^'
  {
    var t := MatchAt(s, i).value;
    MatchAtPlaced(s, i);
    c0 := i + (if s[i] == '%' then 1 else 0);
    c1 := c0 + 1 + |t.number|;
    OccursSingle(t.code, s, c0);
    OccursSingle('^', s, c1);
  }

  /**
   A successful attempt in s + tail whose code letter comes before a char at d
   that is neither a digit nor '^', where a '^' at c leaves four chars after it,
   reads nothing past s: it succeeds in s with the same record.
   */
  lemma AttemptWithin(s: string, tail: string, j: nat, d: nat, c: nat)
    requires j < |s| && MatchAt(s + tail, j).Some?
    requires (if s[j] == '%' then j + 1 else j) < d < c && c + 5 <= |s|
    requires !IsDigit(s[d]) && s[d] != '^' && s[c] == '^'
    ensures MatchAt(s, j) == MatchAt(s + tail, j)
  {
    var u := s + tail;
    var t := MatchAt(u, j).value;
    var percent := u[j] == '%';
    assert u[j] == s[j] && u[d] == s[d] && u[c] == s[c];
    MatchAtPlaced(u, j);
    PlacedEnd(u, j, t, percent, d, c);
    PlacedRestrict(s, tail, j, t, percent);
    PlacedMatchAt(s, j, t, percent);
  }

  /** An attempt that fails before a record at i still fails once text is appended. */
  lemma EarlierAttemptStillFails(s: string, tail: string, i: nat, j: nat)
    requires i <= |s| && MatchAt(s, i).Some? && j < i && MatchAt(s, j).None?
    ensures MatchAt(s + tail, j).None?
  {
    var c0, c1 := RecordMarks(s, i);
    EarlierAttemptStartsBefore(s, i, j);
    if MatchAt(s + tail, j).Some? {
      AttemptWithin(s, tail, j, c0, c1);
    }
  }

  /**
   Text appended after the data never changes what find() reports once the
   data already holds a record.
   */
  lemma FindIgnoresTail(s: string, tail: string)
    requires Find(s).Some?
    ensures Find(s + tail) == Find(s)
  {
    FindLeftmost(s);
    var i := Find(s).value.0;
    forall j | 0 <= j < i ensures MatchAt(s + tail, j).None? {
      EarlierAttemptStillFails(s, tail, i, j);
    }
    TrailingContentIgnored(s, tail, i);
    FindAt(s + tail, i);
  }
}
