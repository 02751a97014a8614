/**
 The cardholder-name rules of MagParse.processName. A Track 1 name field is
 normally "LAST/FIRST M". Two non-conforming encodings are repaired first:
   - no '/' at all ("LOY DARLA E"): the first space becomes the separator;
   - a '/' as the last char ("FIRSTNAME M LASTNAME        /"): all '/' are
     removed, the rest trimmed, and the text after the last space moved to the
     front as the last name.
 The normalised text is then split on '/': with two or more pieces the first
 two, trimmed, are the last and first names; otherwise the whole normalised
 text is the last name and no first name is produced.
 */
module CardName {
  import opened Wrappers
  import opened JavaStrings

  /** The names processName stores; first is None where it leaves firstName alone. */
  datatype NameParts = NameParts(last: string, first: Option<string>)

  /** The reassigned local `data` of processName after the two repairs. */
  function NormalizeName(data: string): (r: string) {
    if '/' !in data then ReplaceFirst(data, ' ', '/')
    else if data[|data| - 1] == '/' then
      var stripped := Trim(RemoveAll(data, '/'));
      var index := LastIndexOf(stripped, ' ');
      if |stripped| > 0 && index >= 0 then
        Trim(stripped[index..]) + "/" + Trim(stripped[..index])
      else stripped
    else data
  }

  /** The names read off the normalised text: split on '/' and take the first two pieces. */
  function PartsOf(normalized: string): (r: NameParts) {
    var bits := Split(normalized, '/');
    if |bits| > 1 then NameParts(Trim(bits[0]), Some(Trim(bits[1])))
    else NameParts(normalized, None)
  }

  /** The last and first names processName derives from the name field. */
  function SplitName(data: string): (r: NameParts) {
    PartsOf(NormalizeName(data))
  }

  /** "A/B" with '/'-free sides: A is the last name and B the first. */
  lemma PartsOfTwo(a: string, b: string)
    requires '/' !in a && '/' !in b && b != []
    ensures PartsOf(a + "/" + b) == NameParts(Trim(a), Some(Trim(b)))
  {
    SplitTwo(a, '/', b);
    assert a + ['/'] + b == a + "/" + b;
  }

  // ---------------------------------------------------------------------
  // The three cases

  /** No '/' and no space: the whole field is the last name. */
  lemma NoSlashNoSpace(data: string)
    requires '/' !in data && ' ' !in data
    ensures SplitName(data) == NameParts(data, None)
  {
  }

  /**
   No '/': the first space separates the last name from the first name. When
   nothing follows that space, split drops the empty piece and the last name is
   the text before the space with the '/' still attached.
   */
  lemma NoSlashFirstSpace(data: string)
    requires '/' !in data && ' ' in data
    ensures var k := IndexOf(data, ' ');
            var before, after := data[..k], data[k + 1..];
            SplitName(data) ==
              if after != [] then NameParts(Trim(before), Some(Trim(after)))
              else NameParts(before + "/", None)
  {
    var k := IndexOf(data, ' ');
    var before, after := data[..k], data[k + 1..];
    var r := ReplaceFirst(data, ' ', '/');
    assert r == before + ['/'] + after by {
      assert r == r[..k] + [r[k]] + r[k + 1..];
    }
    assert '/' !in before by {
      forall j | 0 <= j < |before| ensures before[j] != '/' { assert before[j] == data[j]; }
    }
    assert '/' !in after by {
      forall j | 0 <= j < |after| ensures after[j] != '/' { assert after[j] == data[k + 1 + j]; }
    }
    SplitTwo(before, '/', after);
    assert before + ['/'] == before + "/";
  }

  /** In a trimmed string the last space is neither the first nor the last char. */
  lemma LastSpaceInside(c: string)
    requires IsTrimmed(c) && ' ' in c
    ensures 0 < LastIndexOf(c, ' ') < |c| - 1
  {
    var index := LastIndexOf(c, ' ');
    assert IsTrimmable(c[index]);
  }

  /** The blank at the last space does not survive trim(). */
  lemma TrimFromLastSpace(c: string)
    requires ' ' in c
    ensures var index := LastIndexOf(c, ' ');
            Trim(c[index..]) == Trim(c[index + 1..])
  {
    var index := LastIndexOf(c, ' ');
    assert c[index..] == [' '] + c[index + 1..];
    TrimDropsLeadingBlank(' ', c[index + 1..]);
  }

  /** Both sides of the last space of a trimmed string are non-empty after trim(). */
  lemma SidesOfLastSpaceNonEmpty(c: string)
    requires IsTrimmed(c) && ' ' in c
    ensures var index := LastIndexOf(c, ' ');
            Trim(c[index + 1..]) != [] && Trim(c[..index]) != []
  {
    var index := LastIndexOf(c, ' ');
    LastSpaceInside(c);
    var after, before := c[index + 1..], c[..index];
    assert after[|after| - 1] == c[|c| - 1];
    TrimNonEmpty(after, |after| - 1);
    assert before[0] == c[0];
    TrimNonEmpty(before, 0);
  }

  /** Neither side of the last space of a '/'-free string holds a '/' after trim(). */
  lemma SidesOfLastSpaceNoSlash(c: string)
    requires ' ' in c && '/' !in c
    ensures var index := LastIndexOf(c, ' ');
            '/' !in Trim(c[index + 1..]) && '/' !in Trim(c[..index])
  {
    var index := LastIndexOf(c, ' ');
    var after, before := c[index + 1..], c[..index];
    forall j | 0 <= j < |after| ensures after[j] != '/' {
      assert after[j] == c[index + 1 + j];
    }
    forall j | 0 <= j < |before| ensures before[j] != '/' {
      assert before[j] == c[j];
    }
    TrimKeepsOut(after, '/');
    TrimKeepsOut(before, '/');
  }

  /**
   A trailing '/': after removing every '/' and trimming, the text after the
   last space is the last name and the text before it the first name.
   */
  lemma TrailingSlashLastSpace(data: string)
    requires data != [] && data[|data| - 1] == '/'
    requires ' ' in Trim(RemoveAll(data, '/'))
    ensures var c := Trim(RemoveAll(data, '/'));
            var index := LastIndexOf(c, ' ');
            SplitName(data) == NameParts(Trim(c[index + 1..]), Some(Trim(c[..index])))
  {
    var c := Trim(RemoveAll(data, '/'));
    var index := LastIndexOf(c, ' ');
    var last, first := Trim(c[index + 1..]), Trim(c[..index]);
    assert '/' !in c by {
      RemoveAllOmits(data, '/');
      TrimKeepsOut(RemoveAll(data, '/'), '/');
    }
    assert NormalizeName(data) == last + "/" + first by {
      assert '/' in data by { assert data[|data| - 1] == '/'; }
      TrimFromLastSpace(c);
    }
    TrimShape(RemoveAll(data, '/'));
    SidesOfLastSpaceNonEmpty(c);
    SidesOfLastSpaceNoSlash(c);
    PartsOfTwo(last, first);
    TrimIdempotent(c[index + 1..]);
    TrimIdempotent(c[..index]);
  }

  /** A trailing '/' and no space left after stripping: the stripped text is the last name. */
  lemma TrailingSlashNoSpace(data: string)
    requires data != [] && data[|data| - 1] == '/'
    requires ' ' !in Trim(RemoveAll(data, '/'))
    ensures SplitName(data) == NameParts(Trim(RemoveAll(data, '/')), None)
  {
    var c := Trim(RemoveAll(data, '/'));
    assert '/' in data by { assert data[|data| - 1] == '/'; }
    assert '/' !in c by {
      RemoveAllOmits(data, '/');
      TrimKeepsOut(RemoveAll(data, '/'), '/');
    }
    assert NormalizeName(data) == c;
  }

  /**
   A '/' that is not the last char: the text before the first '/' is the last
   name and the text up to the next '/' (or the end) the first name; any
   further pieces are ignored.
   */
  lemma InnerSlash(data: string)
    requires '/' in data && data[|data| - 1] != '/'
    ensures var k := IndexOf(data, '/');
            var rest := data[k + 1..];
            var m := IndexOf(rest, '/');
            SplitName(data) == NameParts(Trim(data[..k]), Some(Trim(if m < 0 then rest else rest[..m])))
  {
    SplitFirstTwo(data, '/');
  }

  // ---------------------------------------------------------------------
  // The layouts named in processName's comments

  /** "LAST FIRST" without a '/' (as in "LOY DARLA E") reads as last name LAST, first name FIRST. */
  lemma WideStripeLayout(last: string, first: string)
    requires '/' !in last && ' ' !in last && IsTrimmed(last)
    requires '/' !in first && first != [] && IsTrimmed(first)
    ensures SplitName(last + " " + first) == NameParts(last, Some(first))
  {
    var data := last + " " + first;
    var k := |last|;
    assert '/' !in data && ' ' in data && IndexOf(data, ' ') == k
        && data[..k] == last && data[k + 1..] == first by {
      assert data[k] == ' ' && data[..k] == last && data[k + 1..] == first;
      IndexOfUnique(data, ' ', k);
    }
    NoSlashFirstSpace(data);
    TrimOfTrimmed(last);
    TrimOfTrimmed(first);
  }

  /**
   "FIRST LAST   /" (as in "FIRSTNAME M LASTNAME        /") reads as last name
   LAST, first name FIRST, whatever blanks pad it before the '/'.
   */
  lemma TrailingSlashLayout(first: string, last: string, pad: string)
    requires '/' !in first && first != [] && IsTrimmed(first)
    requires '/' !in last && ' ' !in last && last != [] && IsTrimmed(last)
    requires '/' !in pad && AllTrimmable(pad)
    ensures SplitName(first + " " + last + pad + "/") == NameParts(last, Some(first))
  {
    var core := first + " " + last;
    var data := core + pad + "/";
    var k := |first|;
    assert RemoveAll(data, '/') == core + pad by {
      assert '/' !in core + pad;
      RemoveAllAbsent(core + pad, '/');
      RemoveAllConcat(core + pad, "/", '/');
      assert RemoveAll("/", '/') == [];
    }
    assert Trim(core + pad) == core by {
      assert core[0] == first[0] && core[|core| - 1] == last[|last| - 1];
      TrimPadded([], core, pad);
      assert [] + core + pad == core + pad;
    }
    assert ' ' in core && LastIndexOf(core, ' ') == k
        && core[k + 1..] == last && core[..k] == first by {
      assert core[k] == ' ' && core[k + 1..] == last && core[..k] == first;
      LastIndexOfUnique(core, ' ', k);
    }
    assert data != [] && data[|data| - 1] == '/';
    TrailingSlashLastSpace(data);
    TrimOfTrimmed(last);
    TrimOfTrimmed(first);
  }

  /** The conventional layout "LAST/FIRST" (as in "DOE/JOHN"). */
  lemma ConventionalLayout(last: string, first: string)
    requires '/' !in last && IsTrimmed(last)
    requires '/' !in first && first != [] && IsTrimmed(first)
    ensures SplitName(last + "/" + first) == NameParts(last, Some(first))
  {
    var data := last + "/" + first;
    assert NormalizeName(data) == data by {
      assert data[|data| - 1] == first[|first| - 1];
      assert data[|last|] == '/';
    }
    PartsOfTwo(last, first);
    TrimOfTrimmed(last);
    TrimOfTrimmed(first);
  }

  /** Deleting every '/' from "A/B/" leaves AB. */
  lemma RemoveSlashes(a: string, b: string)
    requires '/' !in a && '/' !in b
    ensures RemoveAll(a + "/" + b + "/", '/') == a + b
  {
    RemoveAllConcat(a + "/" + b, "/", '/');
    RemoveAllConcat(a + "/", b, '/');
    RemoveAllConcat(a, "/", '/');
    RemoveAllAbsent(a, '/');
    RemoveAllAbsent(b, '/');
    assert RemoveAll("/", '/') == [];
  }

  /**
   An inner '/' together with a trailing one: every '/' is removed before the
   re-split, so "A/B/" with blank-free A and B reads as the single last name AB.
   */
  lemma InnerAndTrailingSlashLayout(a: string, b: string)
    requires '/' !in a && ' ' !in a && '/' !in b && ' ' !in b && IsTrimmed(a + b)
    ensures SplitName(a + "/" + b + "/") == NameParts(a + b, None)
  {
    var data := a + "/" + b + "/";
    RemoveSlashes(a, b);
    TrimOfTrimmed(a + b);
    assert ' ' !in a + b;
    assert data != [] && data[|data| - 1] == '/';
    TrailingSlashNoSpace(data);
  }
}
