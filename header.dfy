/**
 * `getAcceptedLanguagesFromHeader` in i18n.js: the language tags of an
 * `Accept-Language` header (section 5.3.5 of RFC 7231) whose quality value
 * (section 5.3.1 of RFC 7231) is positive, best first. The header is split on
 * commas; each item is trimmed and split on the literal `;q=`; the tag is the
 * text before it and the quality the number after it (1 when there is none, 0
 * when it is 0 or does not parse). Qualities are kept in a dictionary keyed by
 * tag, so a tag listed twice takes the quality of its last occurrence. The sort
 * is stable and puts higher qualities first.
 */
module AcceptLanguage {
  import opened Wrappers
  import opened Text

  /** A tag and the quality the source records for it. */
  datatype Preference = Preference(tag: string, quality: real)

  /** `parseLanguagePreference` for one comma-separated item. */
  function ParsePreference(item: string): Preference {
    var parts := Split(Trim(item), ";q=");
    if |parts| < 2 then Preference(parts[0], 1.0)
    else
      var q := ParseFloat(parts[1]);
      Preference(parts[0], if q.None? || q.value == 0.0 then 0.0 else q.value)
  }

  /**
   * The tag is the trimmed item up to the first `;q=`, it never contains `;q=`,
   * and an item without `;q=` has quality 1.
   */
  lemma ParsePreferenceTag(item: string)
    ensures var t := Trim(item); var i := IndexOf(t, ";q=");
      && ParsePreference(item).tag == (if i == -1 then t else t[..i])
      && IndexOf(ParsePreference(item).tag, ";q=") == -1
      && (i == -1 ==> ParsePreference(item).quality == 1.0)
  {
    SplitHead(Trim(item), ";q=");
    SplitPieces(Trim(item), ";q=");
  }

  /** No `;q=` starts in the last two characters of a tag and runs into a `;q=` after it. */
  lemma QualityMarkNotAcross(tag: string, k: int)
    requires 0 <= k < |tag| < k + 3
    ensures !OccursAt(tag + ";q=", ";q=", k)
  {
    var s := tag + ";q=";
    assert s[|tag|] == ';';
    assert s[k..k + 3][|tag| - k] == ';';
  }

  /** In a tag that lacks `;q=`, followed by `;q=`, the first `;q=` is the one after the tag. */
  lemma QualityMarkAfterTag(tag: string)
    requires IndexOf(tag, ";q=") == -1
    ensures IndexOf(tag + ";q=", ";q=") == |tag|
  {
    forall k | 0 <= k < |tag| < k + |";q="| ensures !OccursAt(tag + ";q=", ";q=", k) {
      QualityMarkNotAcross(tag, k);
    }
    FirstAfter(tag, ";q=");
  }

  /** A text without a semicolon does not contain `;q=`. */
  lemma NoQualityMark(s: string)
    requires forall k :: 0 <= k < |s| ==> s[k] != ';'
    ensures IndexOf(s, ";q=") == -1
  {
    forall k | 0 <= k ensures !OccursAt(s, ";q=", k) {
      if k + 3 <= |s| {
        assert s[k..k + 3][0] == s[k] != ';';
      }
    }
  }

  /**
   * An item made of a tag, `;q=` and a quality text, with nothing for `trim` to
   * remove: the tag is kept, and the quality is the parsed number, or 0 when it
   * is 0 or NaN.
   */
  lemma ParsePreferenceParts(tag: string, q: string)
    requires IndexOf(tag, ";q=") == -1 && IndexOf(q, ";q=") == -1
    requires tag == [] || !IsSpace(tag[0])
    requires q == [] || !IsSpace(q[|q| - 1])
    ensures var p := ParseFloat(q);
      ParsePreference(tag + ";q=" + q) == Preference(tag, if p.None? || p.value == 0.0 then 0.0 else p.value)
  {
    var item := tag + ";q=" + q;
    ItemUntrimmed(tag, q);
    QualityMarkAfterTag(tag);
    SplitFirst(tag, ";q=", q);
    assert Split(q, ";q=") == [q];
    assert Split(Trim(item), ";q=") == [tag, q];
  }

  /** Such an item has nothing for `trim` to remove. */
  lemma ItemUntrimmed(tag: string, q: string)
    requires tag == [] || !IsSpace(tag[0])
    requires q == [] || !IsSpace(q[|q| - 1])
    ensures Trim(tag + ";q=" + q) == tag + ";q=" + q
  {
    var item := tag + ";q=" + q;
    assert !IsSpace(item[|item| - 1]) by {
      if |q| > 0 { assert item[|item| - 1] == q[|q| - 1]; } else { assert item[|item| - 1] == '='; }
    }
    assert TrimEnd(item) == item;
    assert !IsSpace(item[0]) by {
      if |tag| > 0 { assert item[0] == tag[0]; } else { assert item[0] == ';'; }
    }
    TrimStartNoSpace(item);
  }

  /** A quality written as digits with a decimal point is that decimal number: `en;q=0.5` has quality 0.5. */
  lemma ParsePreferenceDecimal(tag: string, a: string, b: string)
    requires IndexOf(tag, ";q=") == -1 && (tag == [] || !IsSpace(tag[0]))
    requires AllDigits(a) && AllDigits(b) && |a| + |b| >= 1
    ensures ParsePreference(tag + ";q=" + (a + "." + b)) == Preference(tag, DecimalValue(a, b))
  {
    var q := a + "." + b;
    ParseFloatDecimal(a, b);
    DecimalText(a, b);
    ParsePreferenceParts(tag, q);
  }

  /** A decimal literal has no `;q=` and does not end in white space. */
  lemma DecimalText(a: string, b: string)
    requires AllDigits(a) && AllDigits(b)
    ensures var q := a + "." + b; IndexOf(q, ";q=") == -1 && !IsSpace(q[|q| - 1])
  {
    var q := a + "." + b;
    assert !IsSpace(q[|q| - 1]) by {
      if |b| > 0 { assert q[|q| - 1] == b[|b| - 1]; } else { assert q[|q| - 1] == '.'; }
    }
    forall k | 0 <= k < |q| ensures q[k] != ';' {
      if k < |a| { assert q[k] == a[k]; } else if k > |a| { assert q[k] == b[k - |a| - 1]; } else { assert q[k] == '.'; }
    }
    NoQualityMark(q);
  }

  /** A quality written as digits alone is that integer: `en;q=1` has quality 1. */
  lemma ParsePreferenceInteger(tag: string, a: string)
    requires IndexOf(tag, ";q=") == -1 && (tag == [] || !IsSpace(tag[0]))
    requires AllDigits(a) && |a| >= 1
    ensures ParsePreference(tag + ";q=" + a) == Preference(tag, DigitsValue(a) as real)
  {
    ParseFloatInteger(a);
    assert forall k :: 0 <= k < |a| ==> a[k] != ';' by {
      forall k | 0 <= k < |a| ensures a[k] != ';' {
        assert IsDigit(a[k]);
      }
    }
    NoQualityMark(a);
    ParsePreferenceParts(tag, a);
  }

  /** A quality text where no number starts after white space and a sign is NaN, and the quality is 0: `en;q=abc`. */
  lemma ParsePreferenceNaN(tag: string, q: string)
    requires IndexOf(tag, ";q=") == -1 && (tag == [] || !IsSpace(tag[0]))
    requires IndexOf(q, ";q=") == -1 && (q == [] || !IsSpace(q[|q| - 1]))
    requires !StartsNumber(Unsigned(q))
    ensures ParsePreference(tag + ";q=" + q) == Preference(tag, 0.0)
  {
    ParsePreferenceParts(tag, q);
  }

  /** The items of the header, in order. */
  function Preferences(header: string): (ps: seq<Preference>)
    ensures |ps| == |Split(header, ",")|
  {
    var items := Split(header, ",");
    seq(|items|, i requires 0 <= i < |items| => ParsePreference(items[i]))
  }

  function Tags(ps: seq<Preference>): (ts: seq<string>)
    ensures |ts| == |ps| && forall i :: 0 <= i < |ps| ==> ts[i] == ps[i].tag
  {
    seq(|ps|, i requires 0 <= i < |ps| => ps[i].tag)
  }

  /** The `preferences` dictionary: each tag's quality, a later occurrence overwriting an earlier one. */
  function Qualities(ps: seq<Preference>): (q: map<string, real>)
    ensures forall t :: t in q <==> t in Tags(ps)
  {
    if ps == [] then map[]
    else
      var last := ps[|ps| - 1];
      assert Tags(ps) == Tags(ps[..|ps| - 1]) + [last.tag];
      Qualities(ps[..|ps| - 1])[last.tag := last.quality]
  }

  /** The quality a tag ends up with is that of its last occurrence. */
  lemma {:induction false} QualityOfLastOccurrence(ps: seq<Preference>, i: nat)
    requires i < |ps|
    requires forall j :: i < j < |ps| ==> ps[j].tag != ps[i].tag
    ensures Qualities(ps)[ps[i].tag] == ps[i].quality
    decreases |ps|
  {
    if i < |ps| - 1 {
      QualityOfLastOccurrence(ps[..|ps| - 1], i);
    }
  }

  /** The `filter`: the tags whose recorded quality is positive, in order. */
  function Positive(ts: seq<string>, q: map<string, real>): (r: seq<string>)
    requires forall t :: t in ts ==> t in q
    ensures forall t :: t in r <==> t in ts && q[t] > 0.0
    ensures |r| <= |ts|
  {
    if ts == [] then []
    else if q[ts[0]] > 0.0 then [ts[0]] + Positive(ts[1..], q)
    else Positive(ts[1..], q)
  }

  predicate SortedByQuality(s: seq<string>, q: map<string, real>)
    requires forall t :: t in s ==> t in q
  {
    forall i, j :: 0 <= i < j < |s| ==> q[s[i]] >= q[s[j]]
  }

  /** The elements of `s` whose quality is `v`, in order. */
  function WithQuality(s: seq<string>, q: map<string, real>, v: real): seq<string>
    requires forall t :: t in s ==> t in q
  {
    if s == [] then []
    else if q[s[0]] == v then [s[0]] + WithQuality(s[1..], q, v)
    else WithQuality(s[1..], q, v)
  }

  /** Places `t` before the first element whose quality is not higher than its own. */
  function InsertByQuality(t: string, s: seq<string>, q: map<string, real>): (r: seq<string>)
    requires t in q && forall x :: x in s ==> x in q
    requires SortedByQuality(s, q)
    ensures multiset(r) == multiset(s) + multiset{t}
    ensures forall x :: x in r ==> x in q
    ensures SortedByQuality(r, q)
  {
    if s == [] || q[t] >= q[s[0]] then [t] + s
    else
      assert s == [s[0]] + s[1..];
      SortedTail(s, q);
      var rest := InsertByQuality(t, s[1..], q);
      HeadDominates(t, s, rest, q);
      [s[0]] + rest
  }

  lemma SortedTail(s: seq<string>, q: map<string, real>)
    requires s != [] && forall x :: x in s ==> x in q
    requires SortedByQuality(s, q)
    ensures forall x :: x in s[1..] ==> x in q
    ensures SortedByQuality(s[1..], q)
  {
    forall i, j | 0 <= i < j < |s| - 1 ensures q[s[1..][i]] >= q[s[1..][j]] {
      assert s[1..][i] == s[i + 1] && s[1..][j] == s[j + 1];
    }
  }

  lemma HeadDominates(t: string, s: seq<string>, rest: seq<string>, q: map<string, real>)
    requires t in q && forall x :: x in s ==> x in q
    requires s != [] && q[t] < q[s[0]] && SortedByQuality(s, q)
    requires multiset(rest) == multiset(s[1..]) + multiset{t}
    requires forall x :: x in rest ==> x in q
    requires SortedByQuality(rest, q)
    ensures SortedByQuality([s[0]] + rest, q)
  {
    forall x | x in rest ensures q[s[0]] >= q[x] {
      assert x in multiset(rest);
      if x != t {
        assert x in multiset(s[1..]);
        var k :| 0 <= k < |s[1..]| && s[1..][k] == x;
        assert s[k + 1] == x;
      }
    }
    var r := [s[0]] + rest;
    forall i, j | 0 <= i < j < |r| ensures q[r[i]] >= q[r[j]] {
      if i == 0 {
        assert r[j] == rest[j - 1];
        assert r[j] in rest;
      } else {
        assert r[i] == rest[i - 1] && r[j] == rest[j - 1];
      }
    }
  }

  /** The stable descending `sort`, as an insertion sort. */
  function SortByQuality(s: seq<string>, q: map<string, real>): (r: seq<string>)
    requires forall t :: t in s ==> t in q
    ensures multiset(r) == multiset(s)
    ensures forall x :: x in r ==> x in q
    ensures SortedByQuality(r, q)
  {
    if s == [] then []
    else
      assert s == [s[0]] + s[1..];
      InsertByQuality(s[0], SortByQuality(s[1..], q), q)
  }

  lemma {:induction false} InsertKeepsTies(t: string, s: seq<string>, q: map<string, real>, v: real)
    requires t in q && forall x :: x in s ==> x in q
    requires SortedByQuality(s, q)
    ensures WithQuality(InsertByQuality(t, s, q), q, v)
            == (if q[t] == v then [t] else []) + WithQuality(s, q, v)
    decreases |s|
  {
    if s == [] || q[t] >= q[s[0]] {
      assert ([t] + s)[1..] == s;
    } else {
      var rest := InsertByQuality(t, s[1..], q);
      InsertKeepsTies(t, s[1..], q, v);
      assert ([s[0]] + rest)[1..] == rest;
      // t's quality is below s[0]'s, so t is never among the ties of s[0]
      assert q[s[0]] == v ==> q[t] != v;
    }
  }

  /** The sort is stable: for every quality, the tags of that quality keep their order. */
  lemma {:induction false} SortIsStable(s: seq<string>, q: map<string, real>, v: real)
    requires forall t :: t in s ==> t in q
    ensures WithQuality(SortByQuality(s, q), q, v) == WithQuality(s, q, v)
    decreases |s|
  {
    if s != [] {
      SortIsStable(s[1..], q, v);
      InsertKeepsTies(s[0], SortByQuality(s[1..], q), q, v);
    }
  }

  /** `getAcceptedLanguagesFromHeader`. */
  function AcceptedLanguages(header: string): (r: seq<string>)
    ensures var ps := Preferences(header); multiset(r) == multiset(Positive(Tags(ps), Qualities(ps)))
  {
    var ps := Preferences(header);
    var q := Qualities(ps);
    SortByQuality(Positive(Tags(ps), q), q)
  }

  /**
   * A tag is returned exactly when some item carries it and its recorded quality
   * is positive; as many times as it occurs among such items; best quality first,
   * and tags of equal quality in header order.
   */
  lemma AcceptedLanguagesSpec(header: string)
    ensures var ps := Preferences(header); var q := Qualities(ps); var r := AcceptedLanguages(header);
      && (forall t :: t in r <==> t in Tags(ps) && q[t] > 0.0)
      && multiset(r) == multiset(Positive(Tags(ps), q))
      && SortedByQuality(r, q)
      && (forall v :: WithQuality(r, q, v) == WithQuality(Positive(Tags(ps), q), q, v))
  {
    var ps := Preferences(header);
    var q := Qualities(ps);
    var pos := Positive(Tags(ps), q);
    var r := AcceptedLanguages(header);
    forall t ensures t in r <==> t in pos {
      assert t in r <==> t in multiset(r);
    }
    forall v ensures WithQuality(r, q, v) == WithQuality(pos, q, v) {
      SortIsStable(pos, q, v);
    }
  }
}
