/**
 * What the public awards page derives from the stores: the four stat
 * badges (kept current by listeners on the projects, awards and experience
 * collections), the owner card (name, initials, description, colour) and
 * the icon shown for each award.
 */
module PortfolioAwards {
  import opened Text
  import opened Wrappers
  import AwardsAdmin

  // ---------------------------------------------------------------------
  // badges
  // ---------------------------------------------------------------------

  datatype Badge = Badge(id: nat, title: string, value: string)

  const AwardsTitle: string := "Awards Won"
  const ProjectsTitle: string := "Projects Completed"
  const SatisfactionTitle: string := "Customer Satisfaction"
  const YearsTitle: string := "Years of Experience"

  const InitialBadges: seq<Badge> := [
    Badge(1, AwardsTitle, "0"),
    Badge(2, ProjectsTitle, "0"),
    Badge(3, SatisfactionTitle, "0%"),
    Badge(4, YearsTitle, "0+")
  ]

  /** `prev.map(b => b.title === title ? { ...b, value } : b)`. */
  function SetBadge(badges: seq<Badge>, title: string, value: string): (r: seq<Badge>)
    ensures |r| == |badges|
    ensures forall k :: 0 <= k < |r| ==> r[k].id == badges[k].id && r[k].title == badges[k].title
    ensures forall k :: 0 <= k < |r| && badges[k].title != title ==> r[k] == badges[k]
    ensures forall k :: 0 <= k < |r| && badges[k].title == title ==> r[k].value == value
  {
    seq(|badges|, k requires 0 <= k < |badges| =>
      if badges[k].title == title then badges[k].(value := value) else badges[k])
  }

  /** Setting the same badge twice: the second value wins. */
  lemma SetBadgeTwice(badges: seq<Badge>, title: string, v1: string, v2: string)
    ensures SetBadge(SetBadge(badges, title, v1), title, v2) == SetBadge(badges, title, v2)
  {
  }

  /** Listeners for different badges do not interfere: their updates commute. */
  lemma SetBadgesCommute(badges: seq<Badge>, t1: string, v1: string, t2: string, v2: string)
    requires t1 != t2
    ensures SetBadge(SetBadge(badges, t1, v1), t2, v2) == SetBadge(SetBadge(badges, t2, v2), t1, v1)
  {
  }

  /** The initial badges have distinct titles, so each listener changes exactly one of them. */
  lemma InitialTitlesDistinct()
    ensures forall i, j :: 0 <= i < j < |InitialBadges| ==> InitialBadges[i].title != InitialBadges[j].title
  {
  }

  /** `${n}+`. */
  function CountValue(n: nat): (v: string)
    ensures |v| >= 2 && v[|v| - 1] == '+'
    ensures AllDigits(v[..|v| - 1]) && DecimalValue(v[..|v| - 1]) == n
  {
    var d := Digits(n);
    assert (d + "+")[..|d|] == d;
    d + "+"
  }

  /** The projects listener: `Projects Completed` becomes `<number of projects>+`. */
  function OnProjects(badges: seq<Badge>, size: nat): (r: seq<Badge>)
    ensures |r| == |badges|
    ensures forall k :: 0 <= k < |r| && badges[k].title != ProjectsTitle ==> r[k] == badges[k]
    ensures forall k :: 0 <= k < |r| && badges[k].title == ProjectsTitle ==> r[k] == badges[k].(value := CountValue(size))
  {
    SetBadge(badges, ProjectsTitle, CountValue(size))
  }

  /** The awards listener: `Awards Won` becomes `<number of awards>+`. */
  function OnAwards(badges: seq<Badge>, size: nat): (r: seq<Badge>)
    ensures |r| == |badges|
    ensures forall k :: 0 <= k < |r| && badges[k].title != AwardsTitle ==> r[k] == badges[k]
    ensures forall k :: 0 <= k < |r| && badges[k].title == AwardsTitle ==> r[k] == badges[k].(value := CountValue(size))
  {
    SetBadge(badges, AwardsTitle, CountValue(size))
  }

  /** The constant satisfaction badge. */
  function WithSatisfaction(badges: seq<Badge>): (r: seq<Badge>)
    ensures |r| == |badges|
    ensures forall k :: 0 <= k < |r| && badges[k].title != SatisfactionTitle ==> r[k] == badges[k]
    ensures forall k :: 0 <= k < |r| && badges[k].title == SatisfactionTitle ==> r[k] == badges[k].(value := "100%")
  {
    SetBadge(badges, SatisfactionTitle, "100%")
  }

  /** Only the latest snapshot of a collection counts: an earlier count is overwritten. */
  lemma LatestCountWins(badges: seq<Badge>, p1: nat, p2: nat, a1: nat, a2: nat)
    ensures OnProjects(OnProjects(badges, p1), p2) == OnProjects(badges, p2)
    ensures OnAwards(OnAwards(badges, a1), a2) == OnAwards(badges, a2)
  {
    SetBadgeTwice(badges, ProjectsTitle, CountValue(p1), CountValue(p2));
    SetBadgeTwice(badges, AwardsTitle, CountValue(a1), CountValue(a2));
  }

  /** The projects and awards listeners may fire in either order. */
  lemma CountListenersCommute(badges: seq<Badge>, p: nat, a: nat)
    ensures OnProjects(OnAwards(badges, a), p) == OnAwards(OnProjects(badges, p), a)
  {
    SetBadgesCommute(badges, AwardsTitle, CountValue(a), ProjectsTitle, CountValue(p));
  }

  // ---------------------------------------------------------------------
  // years of experience
  // ---------------------------------------------------------------------

  /** The longest prefix of decimal digits. */
  function LeadingDigits(s: string): (d: string)
    ensures |d| <= |s| && d == s[..|d|] && AllDigits(d)
    ensures |d| < |s| ==> !IsDigit(s[|d|])
  {
    if |s| == 0 || !IsDigit(s[0]) then ""
    else
      var rest := LeadingDigits(s[1..]);
      assert [s[0]] + rest == s[..|rest| + 1];
      [s[0]] + rest
  }

  /**
   * `parseInt(text)` in base ten: leading white space, an optional sign,
   * then as many decimal digits as there are; `None` (NaN) without a digit.
   */
  function ParseLeadingInt(text: string): (r: Option<int>)
    ensures r.Some? ==> exists k :: 0 <= k < |text| && IsDigit(text[k])
  {
    var t := TrimStart(text);
    assert forall k :: 0 <= k < |t| ==> t[k] == text[|text| - |t| + k];
    ParseSigned(t)
  }

  /** `s[i..n]` is a non-empty run of digits that the character after it (if any) ends. */
  predicate DigitRunAt(s: string, i: int, n: int) {
    0 <= i < n <= |s| && AllDigits(s[i..n]) && (n == |s| || !IsDigit(s[n]))
  }

  /** An optional sign, then the digits. */
  function ParseSigned(t: string): (r: Option<int>)
    ensures r.Some? <==> exists k :: 0 <= k < |t| && k <= 1 && IsDigit(t[k]) && (k == 1 ==> t[0] == '-' || t[0] == '+')
    ensures r.Some? && |t| > 0 && t[0] == '-' ==> r.value <= 0
    ensures r.Some? && (|t| == 0 || t[0] != '-') ==> r.value >= 0
    ensures r.Some? ==> exists i, n :: SignedRunValue(t, i, n, r.value)
  {
    if |t| > 0 && (t[0] == '-' || t[0] == '+') then
      match ParseUnsigned(t[1..]) {
        case None => None
        case Some(v) =>
          var r := if t[0] == '-' then 0 - v else v;
          assert exists i, n :: SignedRunValue(t, i, n, r) by {
            var n :| DigitRunAt(t[1..], 0, n) && v == DecimalValue(t[1..][0..n]);
            ShiftRun(t, n);
            assert SignedRunValue(t, 1, n + 1, r);
          }
          Some(r)
      }
    else
      var r := ParseUnsigned(t);
      assert r.Some? ==> exists i, n :: SignedRunValue(t, i, n, r.value) by {
        if r.Some? {
          var n :| DigitRunAt(t, 0, n) && r.value == DecimalValue(t[0..n]);
          assert SignedRunValue(t, 0, n, r.value);
        }
      }
      r
  }

  /** `t[i..n]` is the run of digits after at most one sign, and `v` its value, negated after `-`. */
  predicate SignedRunValue(t: string, i: int, n: int, v: int) {
    i <= 1 && DigitRunAt(t, i, n) && (i == 1 ==> t[0] == '-' || t[0] == '+') &&
    v == (if i == 1 && t[0] == '-' then 0 - DecimalValue(t[i..n]) else DecimalValue(t[i..n]))
  }

  /** A text has at most one signed run, so `ParseSigned`'s value is fixed by its contract. */
  lemma SignedRunUnique(t: string, i: int, n: int, v: int, j: int, m: int, w: int)
    requires SignedRunValue(t, i, n, v) && SignedRunValue(t, j, m, w)
    ensures i == j && n == m && v == w
  {
  }

  /** A run of digits right after the first character is a run of the text without it. */
  lemma ShiftRun(t: string, n: int)
    requires |t| > 0 && DigitRunAt(t[1..], 0, n)
    ensures DigitRunAt(t, 1, n + 1) && t[1..n + 1] == t[1..][0..n]
  {
    assert t[1..n + 1] == t[1..][0..n];
    assert n + 1 < |t| ==> t[n + 1] == t[1..][n];
  }

  /** The value of the leading digits; `None` when there is none. */
  function ParseUnsigned(u: string): (r: Option<int>)
    ensures r.Some? <==> |u| > 0 && IsDigit(u[0])
    ensures r.Some? ==> r.value >= 0
    ensures r.Some? ==> exists n :: DigitRunAt(u, 0, n) && r.value == DecimalValue(u[0..n])
  {
    var d := LeadingDigits(u);
    if d == "" then None
    else
      assert u[0..|d|] == d;
      assert DigitRunAt(u, 0, |d|);
      Some(DecimalValue(d))
  }

  /**
   * What `parseInt` makes of a year as people type it: white space, an
   * optional sign, digits (leading zeros allowed), then anything that does
   * not start with a digit. The value is that of the digits, negated after `-`.
   */
  lemma ParseWritten(ws: string, sign: string, d: string, rest: string)
    requires AllSpace(ws) && (sign == "" || sign == "+" || sign == "-")
    requires d != "" && AllDigits(d)
    requires rest == "" || !IsDigit(rest[0])
    ensures ParseLeadingInt(ws + (sign + (d + rest))) == Some(Signed(sign, DecimalValue(d)))
  {
    assert (d + rest)[0] == d[0];
    ParseUnsignedOf(d, rest);
    ParseSignedOf(sign, d + rest, DecimalValue(d));
    TrimStartSkipsSpace(ws, sign + (d + rest));
  }

  /** `v` under a written sign: negated after `-`, as it is otherwise. */
  function Signed(sign: string, v: int): int {
    if sign == "-" then 0 - v else v
  }

  /** A sign in front of an unsigned number negates it or leaves it as it is. */
  lemma ParseSignedOf(sign: string, u: string, v: int)
    requires sign == "" || sign == "+" || sign == "-"
    requires |u| > 0 && IsDigit(u[0]) && ParseUnsigned(u) == Some(v)
    ensures |sign + u| > 0 && !IsSpace((sign + u)[0])
    ensures ParseSigned(sign + u) == Some(Signed(sign, v))
  {
    var t := sign + u;
    if sign == "" {
      assert t == u;
    } else {
      assert t[0] == sign[0];
      assert t[1..] == u;
    }
  }

  lemma ParseUnsignedOf(d: string, rest: string)
    requires d != "" && AllDigits(d)
    requires rest == "" || !IsDigit(rest[0])
    ensures ParseUnsigned(d + rest) == Some(DecimalValue(d))
  {
    LeadingDigitsOf(d, rest);
  }

  /** White space in front of text that does not start with any is what `trimStart` removes. */
  lemma {:induction false} TrimStartSkipsSpace(ws: string, t: string)
    requires AllSpace(ws) && |t| > 0 && !IsSpace(t[0])
    ensures TrimStart(ws + t) == t
    decreases |ws|
  {
    if |ws| > 0 {
      assert (ws + t)[1..] == ws[1..] + t;
      TrimStartSkipsSpace(ws[1..], t);
    } else {
      assert ws + t == t;
    }
  }

  /** A year written out as digits, followed by anything but a digit, parses back to itself. */
  lemma ParseDigits(n: nat, rest: string)
    requires rest == "" || !IsDigit(rest[0])
    ensures ParseLeadingInt(Digits(n) + rest) == Some(n)
  {
    var d := Digits(n);
    var s := d + rest;
    assert s[0] == d[0] && IsDigit(s[0]);
    TrimStartUnchanged(s);
    assert ParseSigned(s) == ParseUnsigned(s);
    LeadingDigitsOf(d, rest);
  }

  /** Text that starts with a digit has no white space to skip. */
  lemma TrimStartUnchanged(s: string)
    requires |s| > 0 && IsDigit(s[0])
    ensures TrimStart(s) == s
  {
    assert !IsSpace(s[0]);
  }

  lemma {:induction false} LeadingDigitsOf(d: string, rest: string)
    requires AllDigits(d)
    requires rest == "" || !IsDigit(rest[0])
    ensures LeadingDigits(d + rest) == d
    decreases |d|
  {
    if |d| > 0 {
      assert (d + rest)[1..] == d[1..] + rest;
      LeadingDigitsOf(d[1..], rest);
    } else {
      assert d + rest == rest;
    }
  }

  /** Text without a single digit is NaN. */
  lemma ParseNeedsDigit(text: string)
    requires forall k :: 0 <= k < |text| ==> !IsDigit(text[k])
    ensures ParseLeadingInt(text) == None
  {
    var t := TrimStart(text);
    assert forall k :: 0 <= k < |t| ==> t[k] == text[|text| - |t| + k];
    if |t| > 0 && (t[0] == '-' || t[0] == '+') {
      assert |t| > 1 ==> t[1..][0] == t[1];
      NoLeadingDigit(t[1..]);
    } else {
      NoLeadingDigit(t);
    }
  }

  /** Without a digit in front there is no number. */
  lemma NoLeadingDigit(u: string)
    requires u == "" || !IsDigit(u[0])
    ensures ParseUnsigned(u) == None
  {
  }

  /** The values of the entries that are present, in order. */
  function Present(opts: seq<Option<int>>): (r: seq<int>)
    ensures |r| <= |opts|
  {
    if |opts| == 0 then []
    else
      match opts[0] {
        case None => Present(opts[1..])
        case Some(y) => [y] + Present(opts[1..])
      }
  }

  /** `Present` keeps exactly the present values. */
  lemma {:induction false} PresentExactly(opts: seq<Option<int>>)
    ensures forall y :: y in Present(opts) ==> exists k :: 0 <= k < |opts| && opts[k] == Some(y)
    ensures forall k :: 0 <= k < |opts| && opts[k].Some? ==> opts[k].value in Present(opts)
    ensures Present(opts) == [] <==> forall k :: 0 <= k < |opts| ==> opts[k].None?
    decreases |opts|
  {
    if |opts| > 0 {
      var tail := opts[1..];
      PresentExactly(tail);
      assert forall k :: 1 <= k < |opts| ==> opts[k] == tail[k - 1];
      forall y | y in Present(opts)
        ensures exists k :: 0 <= k < |opts| && opts[k] == Some(y)
      {
        if y !in Present(tail) {
          assert opts[0] == Some(y);
        } else {
          var k :| 0 <= k < |tail| && tail[k] == Some(y);
          assert opts[k + 1] == tail[k];
        }
      }
    }
  }

  /** `parseInt` applied to every `year`. */
  function ParseAll(years: seq<string>): (r: seq<Option<int>>)
    ensures |r| == |years|
    ensures forall k :: 0 <= k < |r| ==> r[k] == ParseLeadingInt(years[k])
  {
    if |years| == 0 then []
    else [ParseLeadingInt(years[0])] + ParseAll(years[1..])
  }

  /** `snap.docs.map(doc => parseInt(doc.data().year)).filter(y => !isNaN(y))`, each year taken as its text. */
  function ParsedYears(years: seq<string>): (r: seq<int>)
    ensures |r| <= |years|
  {
    Present(ParseAll(years))
  }

  /** Every parsed year is the value of some entry. */
  lemma ParsedYearsSound(years: seq<string>)
    ensures forall y :: y in ParsedYears(years) ==> exists k :: 0 <= k < |years| && ParseLeadingInt(years[k]) == Some(y)
  {
    var opts := ParseAll(years);
    assert forall y :: y in Present(opts) ==> exists k :: 0 <= k < |opts| && opts[k] == Some(y) by {
      PresentExactly(opts);
    }
    forall y | y in Present(opts)
      ensures exists k :: 0 <= k < |years| && ParseLeadingInt(years[k]) == Some(y)
    {
      var k :| 0 <= k < |opts| && opts[k] == Some(y);
      assert ParseLeadingInt(years[k]) == Some(y);
    }
  }

  /** The value of every entry that parses is among the parsed years. */
  lemma ParsedYearsComplete(years: seq<string>)
    ensures forall k :: 0 <= k < |years| && ParseLeadingInt(years[k]).Some? ==> ParseLeadingInt(years[k]).value in ParsedYears(years)
  {
    var opts := ParseAll(years);
    PresentExactly(opts);
    forall k | 0 <= k < |years| && ParseLeadingInt(years[k]).Some?
      ensures ParseLeadingInt(years[k]).value in Present(opts)
    {
      assert opts[k] == ParseLeadingInt(years[k]);
    }
  }

  /** No year parses exactly when no entry parses. */
  lemma ParsedYearsEmpty(years: seq<string>)
    ensures ParsedYears(years) == [] <==> forall k :: 0 <= k < |years| ==> ParseLeadingInt(years[k]).None?
  {
    var opts := ParseAll(years);
    PresentExactly(opts);
    assert (forall k :: 0 <= k < |years| ==> ParseLeadingInt(years[k]).None?) <==>
           (forall k :: 0 <= k < |opts| ==> opts[k].None?);
  }

  /** The parsed years are exactly the values of the entries that parse. */
  lemma ParsedYearsExactly(years: seq<string>)
    ensures forall y :: y in ParsedYears(years) ==> exists k :: 0 <= k < |years| && ParseLeadingInt(years[k]) == Some(y)
    ensures forall k :: 0 <= k < |years| && ParseLeadingInt(years[k]).Some? ==> ParseLeadingInt(years[k]).value in ParsedYears(years)
    ensures ParsedYears(years) == [] <==> forall k :: 0 <= k < |years| ==> ParseLeadingInt(years[k]).None?
  {
    ParsedYearsSound(years);
    ParsedYearsComplete(years);
    ParsedYearsEmpty(years);
  }

  /** `Math.min(...xs)`. */
  function MinOf(xs: seq<int>): (m: int)
    requires |xs| > 0
    ensures m in xs && forall x :: x in xs ==> m <= x
  {
    if |xs| == 1 then xs[0]
    else
      var rest := MinOf(xs[1..]);
      assert forall x :: x in xs ==> x == xs[0] || x in xs[1..];
      if xs[0] <= rest then xs[0] else rest
  }

  /** `Math.max(...xs)`. */
  function MaxOf(xs: seq<int>): (m: int)
    requires |xs| > 0
    ensures m in xs && forall x :: x in xs ==> x <= m
  {
    if |xs| == 1 then xs[0]
    else
      var rest := MaxOf(xs[1..]);
      assert forall x :: x in xs ==> x == xs[0] || x in xs[1..];
      if xs[0] >= rest then xs[0] else rest
  }

  /** `Math.max(currentYear - minYear + 1, maxYear - minYear + 1)`. */
  function ExperienceYears(years: seq<int>, currentYear: int): (e: nat)
    requires |years| > 0
    ensures e >= 1
    ensures forall y :: y in years ==> e >= currentYear - y + 1 && e >= y - MinOf(years) + 1
    ensures e == currentYear - MinOf(years) + 1 || e == MaxOf(years) - MinOf(years) + 1
  {
    var lo, hi := MinOf(years), MaxOf(years);
    if currentYear - lo + 1 >= hi - lo + 1 then currentYear - lo + 1 else hi - lo + 1
  }

  /** The experience listener: an empty snapshot, or one without a parseable year, changes nothing. */
  function OnExperience(badges: seq<Badge>, years: seq<string>, currentYear: int): (r: seq<Badge>)
    ensures (forall k :: 0 <= k < |years| ==> ParseLeadingInt(years[k]).None?) ==> r == badges
    ensures |r| == |badges|
    ensures forall j :: 0 <= j < |r| && badges[j].title != YearsTitle ==> r[j] == badges[j]
    ensures ParsedYears(years) != [] ==>
      forall j :: 0 <= j < |r| && badges[j].title == YearsTitle ==>
        r[j].value == CountValue(ExperienceYears(ParsedYears(years), currentYear))
  {
    ParsedYearsExactly(years);
    if |years| == 0 then badges
    else
      var parsed := ParsedYears(years);
      if |parsed| == 0 then badges
      else SetBadge(badges, YearsTitle, CountValue(ExperienceYears(parsed, currentYear)))
  }

  /**
   * With a parseable year, the experience badge counts at least one year
   * and at least every year since the earliest parseable one, the current
   * one included.
   */
  lemma ExperienceCoversEveryYear(badges: seq<Badge>, years: seq<string>, currentYear: int, k: nat, j: nat)
    requires k < |years| && ParseLeadingInt(years[k]).Some?
    requires j < |badges| && badges[j].title == YearsTitle
    ensures ParsedYears(years) != []
    ensures var e := ExperienceYears(ParsedYears(years), currentYear);
      && e >= currentYear - ParseLeadingInt(years[k]).value + 1
      && OnExperience(badges, years, currentYear)[j].value == CountValue(e)
  {
    ParsedYearsExactly(years);
    assert ParseLeadingInt(years[k]).value in ParsedYears(years);
  }

  /** The experience listener touches the experience badge only. */
  lemma OnExperienceTouchesOnlyYears(badges: seq<Badge>, years: seq<string>, currentYear: int, j: nat)
    requires j < |badges| && badges[j].title != YearsTitle
    ensures |OnExperience(badges, years, currentYear)| == |badges|
    ensures OnExperience(badges, years, currentYear)[j] == badges[j]
  {
  }

  // ---------------------------------------------------------------------
  // the owner card
  // ---------------------------------------------------------------------

  datatype Owner = Owner(fullName: string, initials: string, description: string, colour: string)

  /** The owner document's fields as read; `None` for a missing field. */
  datatype OwnerData = OwnerData(fullName: Option<string>, description: Option<string>)

  const DefaultName: string := "John Doe"
  const DefaultDescription: string := "Founder & CEO, BrightTech Solutions"

  const Colours: seq<string> := [
    "from-teal-500 to-blue-400",
    "from-purple-500 to-pink-500",
    "from-yellow-400 to-orange-500",
    "from-green-400 to-teal-400"
  ]

  /** The card shown while nobody is signed in. */
  const DefaultOwner: Owner := Owner(DefaultName, "JD", DefaultDescription, Colours[0])

  /** `value || fallback` for a text field: a missing or empty value falls back. */
  function OrDefault(value: Option<string>, fallback: string): (r: string)
    ensures value.Some? && value.value != "" ==> r == value.value
    ensures value.None? || value.value == "" ==> r == fallback
  {
    if value.Some? && value.value != "" then value.value else fallback
  }

  /** The first character of each non-empty part, in order: `parts.map(n => n[0]).join("")`. */
  function FirstChars(parts: seq<string>): (r: string)
    ensures |r| <= |parts|
    ensures |r| == |Filter(parts, NonEmptyPart)|
    ensures forall k :: 0 <= k < |r| ==> r[k] == Filter(parts, NonEmptyPart)[k][0]
  {
    if |parts| == 0 then ""
    else
      FilterAppend([parts[0]], parts[1..], NonEmptyPart);
      assert [parts[0]] + parts[1..] == parts;
      (if parts[0] == "" then "" else [parts[0][0]]) + FirstChars(parts[1..])
  }

  function NonEmptyPart(p: string): bool { p != "" }

  /** `fullName.split(" ").map(n => n[0]).join("").toUpperCase()`. */
  function Initials(fullName: string): (r: string)
    ensures |r| <= |Split(fullName, ' ')|
    ensures |r| == |Filter(Split(fullName, ' '), NonEmptyPart)|
    ensures forall k :: 0 <= k < |r| ==> r[k] == UpperChar(Filter(Split(fullName, ' '), NonEmptyPart)[k][0])
    ensures forall k :: 0 <= k < |r| ==> !IsLowerAscii(r[k])
  {
    ToUpper(FirstChars(Split(fullName, ' ')))
  }

  /** `fullName.split("").reduce((a, b) => a + b.charCodeAt(0), 0)`. */
  function CodeSum(s: string): (n: nat)
    ensures forall k :: 0 <= k < |s| ==> n >= s[k] as int
  {
    if |s| == 0 then 0 else s[0] as int + CodeSum(s[1..])
  }

  /** The sum over a text split in two is the sum of the sums; in particular `reduce` may add from the left. */
  lemma {:induction false} CodeSumAppend(a: string, b: string)
    ensures CodeSum(a + b) == CodeSum(a) + CodeSum(b)
    ensures |b| == 1 ==> CodeSum(a + b) == CodeSum(a) + b[0] as int
    decreases |a|
  {
    if |a| == 0 {
      assert a + b == b;
    } else {
      assert (a + b)[1..] == a[1..] + b;
      CodeSumAppend(a[1..], b);
    }
    if |b| == 1 {
      assert b[1..] == [];
    }
  }

  /** The colour slot: the code sum modulo the number of colours. */
  function ColourIndex(fullName: string): (i: nat)
    ensures i < |Colours|
    ensures (CodeSum(fullName) - i) % |Colours| == 0
  {
    CodeSum(fullName) % |Colours|
  }

  /** The card built from an owner document. */
  function OwnerFrom(data: OwnerData): (o: Owner)
    ensures o.fullName == OrDefault(data.fullName, DefaultName)
    ensures o.description == OrDefault(data.description, DefaultDescription)
    ensures o.colour == Colours[ColourIndex(o.fullName)]
    ensures o.fullName != "" && o.description != ""
    ensures o.colour in Colours
    ensures o.initials == Initials(o.fullName)
  {
    var fullName := OrDefault(data.fullName, DefaultName);
    Owner(fullName, Initials(fullName), OrDefault(data.description, DefaultDescription), Colours[ColourIndex(fullName)])
  }

  /** What the owner-lookup listener reacts to. */
  datatype AuthEvent =
    | SignedOut
    | OwnerSnapshot(data: Option<OwnerData>)   // `None`: the document does not exist

  /** The owner card after one event: signing out restores the default, a missing document changes nothing. */
  function NextOwner(current: Owner, event: AuthEvent): (o: Owner)
    ensures event.SignedOut? ==> o == DefaultOwner
    ensures event.OwnerSnapshot? && event.data.None? ==> o == current
    ensures event.OwnerSnapshot? && event.data.Some? ==> o == OwnerFrom(event.data.value)
  {
    match event {
      case SignedOut => DefaultOwner
      case OwnerSnapshot(None) => current
      case OwnerSnapshot(Some(data)) => OwnerFrom(data)
    }
  }

  /** The default card's initials are the initials of its name. */
  lemma DefaultInitials()
    ensures Initials(DefaultName) == DefaultOwner.initials
  {
    SplitDefaultName();
    DefaultFirstChars();
    UpperInitials();
  }

  lemma UpperInitials()
    ensures ToUpper("JD") == "JD"
  {
    var up := ToUpper("JD");
    assert up[0] == 'J' && up[1] == 'D';
  }

  lemma DefaultFirstChars()
    ensures FirstChars(["John", "Doe"]) == "JD"
  {
    assert ["John", "Doe"][1..] == ["Doe"];
    assert FirstChars(["Doe"]) == "D";
  }

  lemma SplitDefaultName()
    ensures Split(DefaultName, ' ') == ["John", "Doe"]
  {
    assert DefaultName == "John" + [' '] + "Doe";
    SplitCons("John", "Doe", ' ');
    SplitWithout("Doe", ' ');
  }

  lemma DefaultNameCodeSum()
    ensures CodeSum(DefaultName) == 711
  {
    assert CodeSum("e") == 101;
    assert CodeSum("oe") == 212;
    assert CodeSum("Doe") == 280;
    assert CodeSum(" Doe") == 312;
    assert CodeSum("n Doe") == 422;
    assert CodeSum("hn Doe") == 526;
    assert CodeSum("ohn Doe") == 637;
  }

  /**
   * An owner document without a name shows the default name, but in a
   * different colour from the signed-out card: the code sum of "John Doe"
   * is 711, which is slot 3, not slot 0.
   */
  lemma NamelessOwnerColour()
    ensures OwnerFrom(OwnerData(None, None)).fullName == DefaultOwner.fullName
    ensures OwnerFrom(OwnerData(None, None)).description == DefaultOwner.description
    ensures OwnerFrom(OwnerData(None, None)).colour != DefaultOwner.colour
  {
    DefaultNameColour();
    assert Colours[3][5] != Colours[0][5];
  }

  lemma DefaultNameColour()
    ensures ColourIndex(DefaultName) == 3
  {
    DefaultNameCodeSum();
  }

  // ---------------------------------------------------------------------
  // award icons
  // ---------------------------------------------------------------------

  /**
   * The icon the public page shows for an award, as written:
   * `award.icon && Icons[award.icon] ? Icons[award.icon] : Icons.FaAward`,
   * where `exported` are the names the icon library exports.
   */
  function ShownAwardIconAsWritten(icon: Option<string>, exported: set<string>): (r: string)
    ensures r == "FaAward" || (icon.Some? && r == icon.value && r in exported)
    ensures icon.Some? && icon.value != "" && icon.value in exported ==> r == icon.value
    ensures icon.None? || icon.value == "" || icon.value !in exported ==> r == "FaAward"
  {
    if icon.Some? && icon.value != "" && icon.value in exported then icon.value else "FaAward"
  }

  /** Every name the icon library exports starts with `Fa`. */
  predicate IconLibraryNames(exported: set<string>) {
    forall n :: n in exported ==> |n| >= 2 && n[..2] == "Fa"
  }

  /** The keys the dashboard stores never name an exported icon, so every award shows the fallback. */
  lemma StoredKeysAlwaysFallBack(key: string, exported: set<string>)
    requires IconLibraryNames(exported)
    requires key in AwardsAdmin.AwardIcons
    ensures ShownAwardIconAsWritten(Some(key), exported) == "FaAward"
  {
    assert key[0] != 'F';
    assert key[..2] != "Fa";
    assert key !in exported;
  }

  /**
   * The icon the public page should show: the stored key is first looked
   * up in the dashboard's table, then in the library, falling back to
   * `FaAward`.
   */
  function ShownAwardIcon(icon: Option<string>, exported: set<string>): (r: string)
    ensures icon.Some? && icon.value in AwardsAdmin.AwardIcons && AwardsAdmin.AwardIcons[icon.value] in exported ==>
      r == AwardsAdmin.AwardIcon(icon.value)
    ensures icon.Some? && icon.value !in AwardsAdmin.AwardIcons ==> r == ShownAwardIconAsWritten(icon, exported)
  {
    if icon.Some? && icon.value in AwardsAdmin.AwardIcons then
      ShownAwardIconAsWritten(Some(AwardsAdmin.AwardIcons[icon.value]), exported)
    else ShownAwardIconAsWritten(icon, exported)
  }

  /** With the key looked up first, the public page and the dashboard show the same icon for every stored key. */
  lemma PagesAgreeOnIcons(key: string, exported: set<string>)
    requires key in AwardsAdmin.AwardIcons
    requires AwardsAdmin.AwardIcons.Values <= exported
    ensures ShownAwardIcon(Some(key), exported) == AwardsAdmin.AwardIcon(key)
  {
    assert AwardsAdmin.AwardIcons[key] in AwardsAdmin.AwardIcons.Values;
  }
}
