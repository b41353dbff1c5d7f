/** The eight Discord timestamp tags the page prints for its date: `<t:N>`
    and `<t:N:C>` for the style codes D, d, F, f, R, T and t, in that order,
    all carrying the same number of seconds `N` since the epoch. A parser for
    the tags is given as the encoder's inverse. */
module Markup {
  import opened Digits
  import opened Wrappers
  import Composer

  /** The display styles Discord offers; `Default` is the tag without a code. */
  datatype Style = Default | LongDate | ShortDate | LongDateTime | ShortDateTime | Relative | LongTime | ShortTime

  /** The order in which the page lists the tags. */
  const Order: seq<Style> := [Default, LongDate, ShortDate, LongDateTime, ShortDateTime, Relative, LongTime, ShortTime]

  /** The letter of a style's code. */
  function Code(s: Style): char
    requires s != Default
  {
    match s
    case LongDate => 'D'
    case ShortDate => 'd'
    case LongDateTime => 'F'
    case ShortDateTime => 'f'
    case Relative => 'R'
    case LongTime => 'T'
    case ShortTime => 't'
  }

  /** The style a code letter stands for, if any. */
  function StyleOf(c: char): (r: Option<Style>)
    ensures r.Some? ==> r.value != Default && Code(r.value) == c
  {
    if c == 'D' then Some(LongDate)
    else if c == 'd' then Some(ShortDate)
    else if c == 'F' then Some(LongDateTime)
    else if c == 'f' then Some(ShortDateTime)
    else if c == 'R' then Some(Relative)
    else if c == 'T' then Some(LongTime)
    else if c == 't' then Some(ShortTime)
    else None
  }

  lemma StyleOfCode(s: Style)
    requires s != Default
    ensures StyleOf(Code(s)) == Some(s)
  {
  }

  /** `Math.floor(ms / 1000)`: whole seconds since the epoch, rounded down,
      so that an instant before 1970 that is not on a whole second goes to
      the second before it. */
  function Seconds(ms: int): (n: int)
    ensures n * 1000 <= ms < n * 1000 + 1000
  {
    ms / 1000
  }

  /** The floor is the only integer with that property. */
  lemma SecondsUnique(ms: int, n: int)
    ensures n * 1000 <= ms < n * 1000 + 1000 <==> n == Seconds(ms)
  {
  }

  /** How JavaScript writes an integer in a template literal: its decimal
      digits, after a minus sign when it is negative. */
  function IntString(n: int): (s: string)
    ensures s != [] && (forall i :: 0 <= i < |s| ==> IsDigit(s[i]) || s[i] == '-')
  {
    if n < 0 then "-" + DecimalString(-n) else DecimalString(n)
  }

  /** Reads back an integer written by `IntString`; any other text is refused. */
  function ParseInt(s: string): Option<int> {
    if s != [] && s[0] == '-' then
      var d := s[1..];
      if Canonical(d) && d[0] != '0' then Some(0 - DecimalValue(d)) else None
    else if Canonical(s) then Some(DecimalValue(s))
    else None
  }

  lemma IntStringRoundTrip(n: int)
    ensures ParseInt(IntString(n)) == Some(n)
  {
    if n < 0 {
      var d := DecimalString(-n);
      var s := "-" + d;
      assert s[1..] == d && s[0] == '-';
      DecimalStringIsCanonical(-n);
      DecimalStringCanonical(-n);
      DecimalRoundTrip(-n);
    } else {
      DecimalStringIsCanonical(n);
      DecimalRoundTrip(n);
      assert DecimalString(n)[0] != '-';
    }
  }

  /** The parser accepts exactly the texts the writer produces. */
  lemma ParseIntExact(s: string, n: int)
    ensures ParseInt(s) == Some(n) <==> IntString(n) == s
  {
    if IntString(n) == s {
      IntStringRoundTrip(n);
    }
    if ParseInt(s) == Some(n) {
      if s != [] && s[0] == '-' {
        var d := s[1..];
        CanonicalRoundTrip(d);
        PositiveValue(d);
        assert s == "-" + d;
      } else {
        CanonicalRoundTrip(s);
      }
    }
  }

  /** What follows the number: `>` for the plain tag, `:C>` for style code C. */
  function Suffix(s: Style): string {
    if s == Default then ">" else [':', Code(s), '>']
  }

  /** One timestamp tag. */
  function Tag(n: int, s: Style): string {
    "<t:" + IntString(n) + Suffix(s)
  }

  /** The eight tags the page shows for the instant `ms`, in the page's order. */
  function Tags(ms: int): (r: seq<string>)
    ensures |r| == |Order| == 8
    ensures forall i :: 0 <= i < |r| ==> r[i] == Tag(Seconds(ms), Order[i])
  {
    var n := IntString(Seconds(ms));
    ["<t:" + n + ">", "<t:" + n + ":D>", "<t:" + n + ":d>", "<t:" + n + ":F>",
     "<t:" + n + ":f>", "<t:" + n + ":R>", "<t:" + n + ":T>", "<t:" + n + ":t>"]
  }

  /** Reads a tag back into its seconds and its style. */
  function ParseTag(t: string): Option<(int, Style)> {
    if |t| < 4 || t[..3] != "<t:" || t[|t| - 1] != '>' then None
    else
      var inner := t[3..|t| - 1];
      if |inner| >= 2 && inner[|inner| - 2] == ':' && StyleOf(inner[|inner| - 1]).Some? then
        match ParseInt(inner[..|inner| - 2])
        case Some(n) => Some((n, StyleOf(inner[|inner| - 1]).value))
        case None => None
      else
        match ParseInt(inner)
        case Some(n) => Some((n, Default))
        case None => None
  }

  lemma TagRoundTrip(n: int, s: Style)
    ensures ParseTag(Tag(n, s)) == Some((n, s))
  {
    var i := IntString(n);
    var t := Tag(n, s);
    IntStringRoundTrip(n);
    assert t[..3] == "<t:";
    if s == Default {
      assert t[3..|t| - 1] == i;
      assert |i| >= 2 ==> i[|i| - 2] != ':';
    } else {
      StyleOfCode(s);
      var inner := t[3..|t| - 1];
      assert inner == i + [':', Code(s)];
      assert inner[..|inner| - 2] == i;
    }
  }

  /** A text parses to `(n, s)` exactly when it is the tag of `n` in style `s`. */
  lemma ParseTagExact(t: string, n: int, s: Style)
    ensures ParseTag(t) == Some((n, s)) <==> Tag(n, s) == t
  {
    if Tag(n, s) == t {
      TagRoundTrip(n, s);
    }
    if ParseTag(t) == Some((n, s)) {
      var inner := t[3..|t| - 1];
      assert t == "<t:" + inner + ">";
      if |inner| >= 2 && inner[|inner| - 2] == ':' && StyleOf(inner[|inner| - 1]).Some? {
        var num := inner[..|inner| - 2];
        ParseIntExact(num, n);
        assert inner == num + [':', Code(s)];
      } else {
        ParseIntExact(inner, n);
      }
    }
  }

  /** Each tag the page shows reads back as the page's seconds and its own style. */
  lemma TagsDecode(ms: int, i: int)
    requires 0 <= i < 8
    ensures ParseTag(Tags(ms)[i]) == Some((Seconds(ms), Order[i]))
  {
    TagRoundTrip(Seconds(ms), Order[i]);
  }

  /** The eight tags are pairwise different. */
  lemma TagsDistinct(ms: int, i: int, j: int)
    requires 0 <= i < 8 && 0 <= j < 8 && i != j
    ensures Tags(ms)[i] != Tags(ms)[j]
  {
    var n := Seconds(ms);
    assert Tags(ms)[i] == Tag(n, Order[i]) && Tags(ms)[j] == Tag(n, Order[j]);
    TagInjective(n, n, Order[i], Order[j]);
  }

  /** Instants in different seconds get different tags of every style. */
  lemma TagInjective(n: int, n': int, s: Style, s': Style)
    ensures Tag(n, s) == Tag(n', s') ==> n == n' && s == s'
  {
    TagRoundTrip(n, s);
    TagRoundTrip(n', s');
  }

  /** Seconds are rounded down: 1999 ms after the epoch is second 1, and one
      millisecond before the epoch already belongs to second -1. */
  lemma ExampleTags()
    ensures Tags(1999)[0] == "<t:1>"
    ensures Tags(-1)[1] == "<t:-1:D>"
  {
    assert IntString(1) == "1";
    assert IntString(-1) == "-1";
  }

  /** The page's tags for 2024-01-15 10:30:00 typed at offset 0 all carry
      1705314600 seconds. */
  lemma ExampleMarkup(i: int)
    requires 0 <= i < 8
    ensures Composer.Compose(Composer.Example("2024", "01", "10"), 0).Some?
    ensures Tags(Composer.Compose(Composer.Example("2024", "01", "10"), 0).value)[i] == Tag(1_705_314_600, Order[i])
  {
    Composer.ExampleInstant();
    assert Seconds(1_705_314_600_000) == 1_705_314_600;
  }
}
