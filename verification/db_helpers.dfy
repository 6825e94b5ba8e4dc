/** `arrayToString`: how an id list is written into query text. The source
    prints the list the way Go prints a slice (`[1 2 3]`), turns every space
    into a comma and trims the brackets off both ends. */
module DbHelpers {
  import opened Osm

  predicate IsDigit(c: char) {
    '0' <= c <= '9'
  }

  function DigitChar(d: nat): (c: char)
    requires d < 10
    ensures IsDigit(c) && (c as int) - ('0' as int) == d
  {
    (('0' as int) + d) as char
  }

  /** Decimal digits of a natural number, most significant first, no leading zeros. */
  function NatDigits(n: nat): (r: string)
    ensures |r| > 0 && forall i :: 0 <= i < |r| ==> IsDigit(r[i])
    ensures |r| > 1 ==> r[0] != '0'
  {
    if n < 10 then [DigitChar(n)] else NatDigits(n / 10) + [DigitChar(n % 10)]
  }

  /** Go's decimal formatting of an integer: a minus sign for negatives. */
  function Decimal(n: int): (r: string)
    ensures |r| > 0
    ensures ' ' !in r && '[' !in r && ']' !in r && ',' !in r
    ensures n < 0 <==> r[0] == '-'
  {
    if n < 0 then "-" + NatDigits(-n) else NatDigits(n)
  }

  function DigitValue(c: char): (d: nat)
    requires IsDigit(c)
    ensures d < 10
  {
    (c as int) - ('0' as int)
  }

  /** Reading digits back. */
  function ParseNat(s: string): nat
    requires forall i :: 0 <= i < |s| ==> IsDigit(s[i])
    decreases |s|
  {
    if |s| == 0 then 0 else ParseNat(s[..|s| - 1]) * 10 + DigitValue(s[|s| - 1])
  }

  function ParseDecimal(s: string): int
    requires |s| > 0
    requires s[0] == '-' ==> forall i :: 1 <= i < |s| ==> IsDigit(s[i])
    requires s[0] != '-' ==> forall i :: 0 <= i < |s| ==> IsDigit(s[i])
  {
    if s[0] == '-' then -(ParseNat(s[1..]) as int) else ParseNat(s)
  }

  lemma {:induction false} ParseNatDigits(n: nat)
    ensures ParseNat(NatDigits(n)) == n
  {
    if n >= 10 {
      var s := NatDigits(n);
      assert s[..|s| - 1] == NatDigits(n / 10);
      ParseNatDigits(n / 10);
    }
  }

  /** Decimal formatting loses nothing. */
  lemma DecimalRoundTrip(n: int)
    ensures ParseDecimal(Decimal(n)) == n
  {
    if n < 0 {
      assert Decimal(n)[1..] == NatDigits(-n);
      ParseNatDigits(-n);
    } else {
      ParseNatDigits(n);
    }
  }

  function Decimals(arr: seq<Id>): (r: seq<string>)
    ensures |r| == |arr| && forall i :: 0 <= i < |arr| ==> r[i] == Decimal(arr[i])
  {
    seq(|arr|, i requires 0 <= i < |arr| => Decimal(arr[i]))
  }

  /** The parts with one separator between neighbours. */
  function Join(parts: seq<string>, sep: char): string
    decreases |parts|
  {
    if |parts| == 0 then ""
    else if |parts| == 1 then parts[0]
    else parts[0] + [sep] + Join(parts[1..], sep)
  }

  /** Go's formatting of a slice of integers: elements separated by spaces,
      inside square brackets. */
  function Sprint(arr: seq<Id>): (r: string)
    ensures |r| >= 2 && r[0] == '[' && r[|r| - 1] == ']'
    ensures r[1..|r| - 1] == Join(Decimals(arr), ' ')
    ensures |arr| == 0 ==> r == "[]"
    ensures |arr| == 1 ==> r == "[" + Decimal(arr[0]) + "]"
  {
    "[" + Join(Decimals(arr), ' ') + "]"
  }

  /** Every occurrence of one character replaced by another. */
  function ReplaceChar(s: string, from: char, to: char): (r: string)
    ensures |r| == |s|
    ensures forall i :: 0 <= i < |s| ==> r[i] == (if s[i] == from then to else s[i])
  {
    seq(|s|, i requires 0 <= i < |s| => if s[i] == from then to else s[i])
  }

  function TrimLeft(s: string, cut: set<char>): (r: string)
    decreases |s|
  {
    if |s| > 0 && s[0] in cut then TrimLeft(s[1..], cut) else s
  }

  function TrimRight(s: string, cut: set<char>): (r: string)
    decreases |s|
  {
    if |s| > 0 && s[|s| - 1] in cut then TrimRight(s[..|s| - 1], cut) else s
  }

  /** Go's `strings.Trim`: drop every leading and trailing character of the
      cut set. What remains is one slice of the input, every character before
      and after it is in the cut set, and its own ends are not. */
  function Trim(s: string, cut: set<char>): (r: string)
    ensures |r| <= |s|
    ensures |r| > 0 ==> r[0] !in cut && r[|r| - 1] !in cut
    ensures exists a, b :: && 0 <= a <= b <= |s| && r == s[a..b]
                           && (forall i :: 0 <= i < a ==> s[i] in cut)
                           && (forall i :: b <= i < |s| ==> s[i] in cut)
  {
    TrimRightFacts(TrimLeft(s, cut), cut);
    TrimLeftFacts(s, cut);
    var a :| && 0 <= a <= |s| && TrimLeft(s, cut) == s[a..]
             && forall i :: 0 <= i < a ==> s[i] in cut;
    var t := TrimLeft(s, cut);
    var b :| && 0 <= b <= |t| && TrimRight(t, cut) == t[..b]
             && forall i :: b <= i < |t| ==> t[i] in cut;
    assert s[a..][..b] == s[a..a + b];
    assert forall i :: a + b <= i < |s| ==> s[i] in cut by {
      forall i | a + b <= i < |s| ensures s[i] in cut {
        assert s[i] == t[i - a];
      }
    }
    TrimRight(t, cut)
  }

  lemma {:induction false} TrimLeftFacts(s: string, cut: set<char>)
    ensures |TrimLeft(s, cut)| > 0 ==> TrimLeft(s, cut)[0] !in cut
    ensures exists a :: && 0 <= a <= |s| && TrimLeft(s, cut) == s[a..]
                        && forall i :: 0 <= i < a ==> s[i] in cut
    decreases |s|
  {
    if |s| > 0 && s[0] in cut {
      var tail := s[1..];
      TrimLeftFacts(tail, cut);
      var a :| && 0 <= a <= |tail| && TrimLeft(tail, cut) == tail[a..]
               && forall i :: 0 <= i < a ==> tail[i] in cut;
      assert tail[a..] == s[a + 1..];
      forall i | 0 < i < a + 1 ensures s[i] in cut {
        assert s[i] == tail[i - 1];
      }
    } else {
      assert s == s[0..];
    }
  }

  lemma {:induction false} TrimRightFacts(s: string, cut: set<char>)
    ensures |TrimRight(s, cut)| > 0 ==> TrimRight(s, cut)[|TrimRight(s, cut)| - 1] !in cut
    ensures exists b :: && 0 <= b <= |s| && TrimRight(s, cut) == s[..b]
                        && forall i :: b <= i < |s| ==> s[i] in cut
    decreases |s|
  {
    if |s| > 0 && s[|s| - 1] in cut {
      var front := s[..|s| - 1];
      TrimRightFacts(front, cut);
      var b :| && 0 <= b <= |front| && TrimRight(front, cut) == front[..b]
               && forall i :: b <= i < |front| ==> front[i] in cut;
      assert front[..b] == s[..b];
      forall i | b <= i < |front| ensures s[i] in cut {
        assert s[i] == front[i];
      }
    } else {
      assert s == s[..|s|];
    }
  }

  /** `arrayToString`, composed as in the source. */
  function ArrayToString(arr: seq<Id>): (r: string)
    ensures ' ' !in r && '[' !in r && ']' !in r
  {
    ArrayToStringIsCommaJoin(arr);
    JoinAvoids(Decimals(arr), ',', ' ');
    JoinAvoids(Decimals(arr), ',', '[');
    JoinAvoids(Decimals(arr), ',', ']');
    Trim(ReplaceChar(Sprint(arr), ' ', ','), {'[', ']'})
  }

  /** Joining parts that avoid a character, with another separator, avoids it. */
  lemma {:induction false} JoinAvoids(parts: seq<string>, sep: char, c: char)
    requires c != sep
    requires forall i :: 0 <= i < |parts| ==> c !in parts[i]
    ensures c !in Join(parts, sep)
    decreases |parts|
  {
    if |parts| > 1 {
      JoinAvoids(parts[1..], sep, c);
    }
  }

  /** Replacing the separator of a join by another gives the other join. */
  lemma {:induction false} ReplaceSeparator(parts: seq<string>, from: char, to: char)
    requires forall i :: 0 <= i < |parts| ==> from !in parts[i]
    ensures ReplaceChar(Join(parts, from), from, to) == Join(parts, to)
    decreases |parts|
  {
    if |parts| == 1 {
      var s := parts[0];
      assert ReplaceChar(s, from, to) == s;
    } else if |parts| > 1 {
      ReplaceSeparator(parts[1..], from, to);
      var head := parts[0] + [from];
      var tail := Join(parts[1..], from);
      assert Join(parts, from) == head + tail;
      assert ReplaceChar(head + tail, from, to) == ReplaceChar(head, from, to) + ReplaceChar(tail, from, to);
      assert ReplaceChar(head, from, to) == parts[0] + [to];
    }
  }

  /** A join of non-empty parts starts and ends with a part's characters. */
  lemma {:induction false} JoinEnds(parts: seq<string>, sep: char)
    requires |parts| > 0 && forall i :: 0 <= i < |parts| ==> |parts[i]| > 0
    ensures |Join(parts, sep)| > 0
    ensures Join(parts, sep)[0] == parts[0][0]
    ensures Join(parts, sep)[|Join(parts, sep)| - 1] == parts[|parts| - 1][|parts[|parts| - 1]| - 1]
    decreases |parts|
  {
    if |parts| > 1 {
      JoinEnds(parts[1..], sep);
    }
  }

  /** What `arrayToString` amounts to: the decimal forms joined by commas. */
  lemma ArrayToStringIsCommaJoin(arr: seq<Id>)
    ensures Trim(ReplaceChar(Sprint(arr), ' ', ','), {'[', ']'}) == Join(Decimals(arr), ',')
  {
    var parts := Decimals(arr);
    var cut := {'[', ']'};
    var joined := Join(parts, ',');
    ReplaceSeparator(parts, ' ', ',');
    var s := "[" + Join(parts, ' ') + "]";
    assert ReplaceChar(s, ' ', ',') == "[" + joined + "]";
    JoinAvoids(parts, ',', '[');
    JoinAvoids(parts, ',', ']');
    assert TrimLeft("[" + joined + "]", cut) == TrimLeft(joined + "]", cut) by {
      assert ("[" + joined + "]")[1..] == joined + "]";
    }
    if |parts| == 0 {
      assert TrimLeft("]", cut) == TrimLeft("", cut) by { assert "]"[1..] == ""; }
      assert TrimRight("", cut) == "";
    } else {
      JoinEnds(parts, ',');
      assert (joined + "]")[0] == joined[0];
      assert TrimLeft(joined + "]", cut) == joined + "]";
      assert (joined + "]")[..|joined|] == joined;
      assert joined[|joined| - 1] !in cut;
      assert TrimRight(joined + "]", cut) == TrimRight(joined, cut);
      assert TrimRight(joined, cut) == joined;
    }
  }

  /** The edge cases the query text relies on. */
  lemma ArrayToStringSmall(x: Id)
    ensures ArrayToString([]) == ""
    ensures ArrayToString([x]) == Decimal(x)
  {
    ArrayToStringIsCommaJoin([]);
    ArrayToStringIsCommaJoin([x]);
  }

  /** Go's `strings.Split` on one separator character. */
  function Split(s: string, sep: char): (r: seq<string>)
    ensures |r| > 0
    decreases |s|
  {
    if |s| == 0 then [""]
    else
      var rest := Split(s[1..], sep);
      if s[0] == sep then [""] + rest else [[s[0]] + rest[0]] + rest[1..]
  }

  lemma {:induction false} SplitJoin(parts: seq<string>, sep: char)
    requires |parts| > 0
    requires forall i :: 0 <= i < |parts| ==> sep !in parts[i]
    ensures Split(Join(parts, sep), sep) == parts
    decreases |parts|
  {
    if |parts| == 1 {
      SplitPart(parts[0], "", sep);
      assert parts[0] + "" == parts[0];
    } else {
      SplitJoin(parts[1..], sep);
      var tail := Join(parts[1..], sep);
      assert Split([sep] + tail, sep) == [""] + parts[1..] by {
        assert ([sep] + tail)[1..] == tail;
      }
      assert Join(parts, sep) == parts[0] + ([sep] + tail);
      SplitPart(parts[0], [sep] + tail, sep);
      assert parts[0] + "" == parts[0];
      assert parts == [parts[0]] + parts[1..];
    }
  }

  /** Splitting a separator-free piece glued in front of a rest glues it to
      the rest's first field. */
  lemma {:induction false} SplitPart(part: string, rest: string, sep: char)
    requires sep !in part
    ensures Split(part + rest, sep) == [part + Split(rest, sep)[0]] + Split(rest, sep)[1..]
    decreases |part|
  {
    if |part| > 0 {
      SplitPart(part[1..], rest, sep);
      assert (part + rest)[1..] == part[1..] + rest;
      assert [part[0]] + (part[1..] + Split(rest, sep)[0]) == part + Split(rest, sep)[0];
    } else {
      assert part + rest == rest;
      assert part + Split(rest, sep)[0] == Split(rest, sep)[0];
      assert Split(rest, sep) == [Split(rest, sep)[0]] + Split(rest, sep)[1..];
    }
  }

  /** A non-empty list survives being written into query text: splitting at the
      commas and reading each field gives the list back. */
  lemma ArrayToStringRoundTrip(arr: seq<Id>)
    requires |arr| > 0
    ensures |Split(ArrayToString(arr), ',')| == |arr|
    ensures forall i :: 0 <= i < |arr| ==> Split(ArrayToString(arr), ',')[i] == Decimal(arr[i])
    ensures forall i :: 0 <= i < |arr| ==> ParseDecimal(Split(ArrayToString(arr), ',')[i]) == arr[i]
  {
    ArrayToStringIsCommaJoin(arr);
    SplitJoin(Decimals(arr), ',');
    forall i | 0 <= i < |arr| ensures ParseDecimal(Decimal(arr[i])) == arr[i] {
      DecimalRoundTrip(arr[i]);
    }
  }
}
