/**
 * The answer count read from the question page (main.py:73-79): the first
 * match of `<meta itemProp="answerCount" content="(\d+)"/>`, read as an integer.
 */
module Metadata {
  import opened Common

  const CountPrefix: string := "<meta itemProp=\"answerCount\" content=\""
  const CountSuffix: string := "\"/>"

  predicate IsDigit(c: char)
  {
    '0' <= c <= '9'
  }

  /** The length of the run of digits that `s` starts with (`\d+` is greedy). */
  function DigitRun(s: string): (k: nat)
    ensures k <= |s|
    ensures forall i :: 0 <= i < k ==> IsDigit(s[i])
    ensures k < |s| ==> !IsDigit(s[k])
  {
    if s != [] && IsDigit(s[0]) then 1 + DigitRun(s[1..]) else 0
  }

  function DigitValue(c: char): (v: nat)
    requires IsDigit(c)
    ensures v < 10
  {
    (c as int) - ('0' as int)
  }

  /** `int(d)` for a string of decimal digits. */
  function DigitsValue(d: string): nat
    requires forall i :: 0 <= i < |d| ==> IsDigit(d[i])
  {
    if d == [] then 0 else 10 * DigitsValue(d[..|d| - 1]) + DigitValue(d[|d| - 1])
  }

  /** `str(n)`: the decimal digits of `n`. */
  function Decimal(n: nat): (d: string)
    ensures |d| >= 1
    ensures forall i :: 0 <= i < |d| ==> IsDigit(d[i])
  {
    var last := ['0' + (n % 10) as char];
    if n < 10 then last else Decimal(n / 10) + last
  }

  /** The match of the pattern at the start of `s`, if any, as the integer it captures. */
  function MatchCountAt(s: string): (r: Option<nat>)
    ensures r.Some? ==> CountPrefix <= s && |CountPrefix| < |s| && IsDigit(s[|CountPrefix|])
  {
    if CountPrefix <= s then
      var t := s[|CountPrefix|..];
      var k := DigitRun(t);
      if k > 0 && CountSuffix <= t[k..] then Some(DigitsValue(t[..k])) else None
    else None
  }

  /** No match of the pattern starts before position `p`. */
  ghost predicate NoMatchBefore(html: string, p: int)
  {
    forall q :: 0 <= q < p && q <= |html| ==> MatchCountAt(html[q..]).None?
  }

  /** `re.search`: the match that starts first. `None` stands for the run's
      fatal exit when the page holds no answer count. */
  function FindAnswerCount(html: string): Option<nat>
  {
    var here := MatchCountAt(html);
    if here.Some? || html == [] then here else FindAnswerCount(html[1..])
  }

  /** The count found is that of the leftmost match, and there is none exactly
      when no position of the page starts a match. */
  lemma {:induction false} FindAnswerCountSpec(html: string)
    ensures FindAnswerCount(html).None? <==> NoMatchBefore(html, |html| + 1)
    ensures FindAnswerCount(html).Some? ==>
              exists p :: 0 <= p <= |html| && MatchCountAt(html[p..]) == FindAnswerCount(html) &&
                          NoMatchBefore(html, p)
  {
    var here := MatchCountAt(html);
    assert html[0..] == html;
    if here.None? && html != [] {
      var tail := html[1..];
      FindAnswerCountSpec(tail);
      forall q | 1 <= q <= |html| ensures html[q..] == tail[q - 1..] { }
      if FindAnswerCount(tail).Some? {
        var p :| 0 <= p <= |tail| && MatchCountAt(tail[p..]) == FindAnswerCount(tail) &&
                 NoMatchBefore(tail, p);
        assert html[p + 1..] == tail[p..];
        assert NoMatchBefore(html, p + 1) by {
          forall q | 0 <= q < p + 1 && q <= |html| ensures MatchCountAt(html[q..]).None? {
            if q > 0 {
              assert html[q..] == tail[q - 1..];
            }
          }
        }
      } else {
        assert NoMatchBefore(html, |html| + 1) by {
          forall q | 0 <= q < |html| + 1 ensures MatchCountAt(html[q..]).None? {
            if q > 0 {
              assert html[q..] == tail[q - 1..];
            }
          }
        }
      }
    }
  }

  /** Reading back the digits that `str` writes gives the number. */
  lemma {:induction false} DecimalRoundTrip(n: nat)
    ensures DigitsValue(Decimal(n)) == n
  {
    if n >= 10 {
      DecimalRoundTrip(n / 10);
      var d := Decimal(n);
      assert d[..|d| - 1] == Decimal(n / 10);
    }
  }

  /** The meta tag a page carries for `n` answers. */
  function CountTag(n: nat): string
  {
    CountPrefix + Decimal(n) + CountSuffix
  }

  /** `s` starts with a full match of the pattern whose `(\d+)` group is `d`. */
  ghost predicate CountMatch(s: string, d: string)
  {
    d != [] && (forall i :: 0 <= i < |d| ==> IsDigit(d[i])) && CountPrefix + d + CountSuffix <= s
  }

  /** A match at the start of `s` is exactly the prefix, a non-empty run of
      digits and `"/>`, and its value is `int` of those digits. */
  lemma MatchCountAtSpec(s: string)
    ensures MatchCountAt(s).Some? <==> exists d :: CountMatch(s, d)
    ensures forall d :: CountMatch(s, d) ==> MatchCountAt(s) == Some(DigitsValue(d))
  {
    forall d | CountMatch(s, d) ensures MatchCountAt(s) == Some(DigitsValue(d)) {
      MatchOfDigits(s, d);
    }
    if MatchCountAt(s).Some? {
      var t := s[|CountPrefix|..];
      var d := t[..DigitRun(t)];
      assert s[..|CountPrefix| + |d| + |CountSuffix|] == CountPrefix + d + CountSuffix by {
        assert s == CountPrefix + t;
        assert t == d + t[|d|..];
        assert t[|d|..][..|CountSuffix|] == CountSuffix;
      }
      assert CountMatch(s, d);
    }
  }

  /** The prefix, digits `d` and `"/>` at the start of `s` match with the value of `d`. */
  lemma MatchOfDigits(s: string, d: string)
    requires CountMatch(s, d)
    ensures MatchCountAt(s) == Some(DigitsValue(d))
  {
    var t := s[|CountPrefix|..];
    var rest := t[|d|..];
    assert s[..|CountPrefix|] == CountPrefix && t[..|d|] == d && rest[..|CountSuffix|] == CountSuffix by {
      var w := CountPrefix + d + CountSuffix;
      assert s[..|w|] == w;
    }
    assert CountPrefix <= s;
    assert t == d + rest;
    DigitRunOf(d, rest);
  }

  /** The tag for `n`, followed by anything, matches with the value `n`. */
  lemma MatchCountTag(n: nat, post: string)
    ensures MatchCountAt(CountTag(n) + post) == Some(n)
  {
    var s := CountTag(n) + post;
    var d := Decimal(n);
    assert s[..|CountPrefix + d + CountSuffix|] == CountPrefix + d + CountSuffix;
    MatchOfDigits(s, d);
    DecimalRoundTrip(n);
  }

  /** Digits closed by `">` instead of `"/>` are no match. */
  lemma MissingSlashNoMatch(d: string, post: string)
    requires forall i :: 0 <= i < |d| ==> IsDigit(d[i])
    ensures MatchCountAt(CountPrefix + d + "\">" + post).None?
  {
    var s := CountPrefix + d + "\">" + post;
    var rest := "\">" + post;
    var t := s[|CountPrefix|..];
    assert t == d + rest;
    DigitRunOf(d, rest);
    assert rest[1] != CountSuffix[1];
  }

  /** A page whose first answer-count tag carries `n`, preceded by text that holds
      no match, yields `n`. */
  lemma CountTagRoundTrip(pre: string, n: nat, post: string)
    requires NoMatchBefore(pre + CountTag(n) + post, |pre|)
    ensures FindAnswerCount(pre + CountTag(n) + post) == Some(n)
  {
    var html := pre + CountTag(n) + post;
    assert html[|pre|..] == CountTag(n) + post;
    MatchCountTag(n, post);
    FindAnswerCountSpec(html);
    var r := FindAnswerCount(html);
    var p :| 0 <= p <= |html| && MatchCountAt(html[p..]) == r && NoMatchBefore(html, p);
    assert p == |pre|;
  }

  lemma {:induction false} DigitRunOf(d: string, rest: string)
    requires forall i :: 0 <= i < |d| ==> IsDigit(d[i])
    requires rest != [] && !IsDigit(rest[0])
    ensures DigitRun(d + rest) == |d|
    decreases |d|
  {
    if d != [] {
      assert (d + rest)[1..] == d[1..] + rest;
      DigitRunOf(d[1..], rest);
    }
  }
}
