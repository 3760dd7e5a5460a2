/** The persisted generated-menu format: a run of bracketed triples
    `[YYYY-MM-DD,item_id,meal]` (meal optional, 1..3), read back into a map
    from date to that day's entries in the order they were written. */
module PlanFormat {
  import opened Text

  /** One triple as the pattern captures it: the date text, the item id and
      the meal number (3 when the triple has no meal field). */
  datatype Bracket = Bracket(date: string, itmId: nat, meal: int)

  /** One element of a day's list, {"itm_id": .., "meal": ..}. */
  datatype Entry = Entry(itmId: nat, meal: int)

  /** `\d{4}-\d{2}-\d{2}`: shape only, no calendar check. */
  predicate IsDateShape(d: string)
  {
    && |d| == 10 && d[4] == '-' && d[7] == '-'
    && IsDigit(d[0]) && IsDigit(d[1]) && IsDigit(d[2]) && IsDigit(d[3])
    && IsDigit(d[5]) && IsDigit(d[6]) && IsDigit(d[8]) && IsDigit(d[9])
  }

  predicate IsMealChar(c: char)
  {
    c == '1' || c == '2' || c == '3'
  }

  predicate WellFormed(b: Bracket)
  {
    IsDateShape(b.date) && 1 <= b.meal <= 3
  }

  /** Length of the run of ASCII digits that starts s (`[0-9]+` is greedy). */
  function DigitPrefix(s: string): (n: nat)
    ensures n <= |s| && AllDigits(s[..n])
    ensures n < |s| ==> !IsDigit(s[n])
  {
    if |s| > 0 && IsDigit(s[0]) then
      var n := 1 + DigitPrefix(s[1..]);
      assert forall i :: 1 <= i < n ==> s[..n][i] == s[1..][..n - 1][i - 1];
      n
    else 0
  }

  /** One attempt of the pattern
        \[\s*(\d{4}-\d{2}-\d{2})\s*,\s*([0-9]+)\s*(?:,\s*([123])\s*)?\]
      at the start of s: the captured triple and the text after the match.
      No backtracking can change the outcome, since every greedy run is
      followed by a character the run cannot contain; the attempt is written
      as one stage per field. */
  function MatchBracket(s: string): (m: Option<(Bracket, string)>)
    ensures m.Some? ==> |s| > 0 && s[0] == '['
    ensures m.Some? ==> WellFormed(m.value.0)
    ensures m.Some? ==> |m.value.1| < |s|
  {
    if |s| == 0 || s[0] != '[' then None else MatchDate(LStrip(s[1..]))
  }

  /** After `[` and spaces: the date. */
  function MatchDate(r1: string): (m: Option<(Bracket, string)>)
    ensures m.Some? ==> WellFormed(m.value.0) && |m.value.1| < |r1|
  {
    if |r1| < 10 || !IsDateShape(r1[..10]) then None
    else MatchItem(r1[..10], LStrip(r1[10..]))
  }

  /** After the date and spaces: the comma and the item id. */
  function MatchItem(date: string, r2: string): (m: Option<(Bracket, string)>)
    requires IsDateShape(date)
    ensures m.Some? ==> WellFormed(m.value.0) && |m.value.1| < |r2|
  {
    if |r2| == 0 || r2[0] != ',' then None else
    var r3 := LStrip(r2[1..]);
    var n := DigitPrefix(r3);
    if n == 0 then None
    else MatchClose(date, DigitsValue(r3[..n]), LStrip(r3[n..]))
  }

  /** After the item id and spaces: `]` (no meal, read as 3) or `,` and a meal. */
  function MatchClose(date: string, id: nat, r4: string): (m: Option<(Bracket, string)>)
    requires IsDateShape(date)
    ensures m.Some? ==> WellFormed(m.value.0) && |m.value.1| < |r4|
  {
    if |r4| > 0 && r4[0] == ']' then Some((Bracket(date, id, 3), r4[1..]))
    else if |r4| == 0 || r4[0] != ',' then None
    else MatchMeal(date, id, LStrip(r4[1..]))
  }

  /** After the second comma and spaces: the meal digit, spaces and `]`. */
  function MatchMeal(date: string, id: nat, r5: string): (m: Option<(Bracket, string)>)
    requires IsDateShape(date)
    ensures m.Some? ==> WellFormed(m.value.0) && |m.value.1| < |r5|
  {
    if |r5| == 0 || !IsMealChar(r5[0]) then None else
    var r6 := LStrip(r5[1..]);
    if |r6| == 0 || r6[0] != ']' then None
    else Some((Bracket(date, id, DigitVal(r5[0])), r6[1..]))
  }

  /** re.findall of that pattern: scan left to right, take each match and
      continue after it, otherwise move on by one character. Every triple it
      yields is well formed. */
  function FindAll(s: string): (bs: seq<Bracket>)
    ensures forall k :: 0 <= k < |bs| ==> WellFormed(bs[k])
    decreases |s|
  {
    if |s| == 0 then []
    else match MatchBracket(s)
      case Some((b, rest)) => [b] + FindAll(rest)
      case None => FindAll(s[1..])
  }

  // ------------------------------------------------------------ grouping

  function DatesOf(bs: seq<Bracket>): set<string>
  {
    set k | 0 <= k < |bs| :: bs[k].date
  }

  /** The entries of date d, in the order their triples occur. */
  function EntriesOn(bs: seq<Bracket>, d: string): seq<Entry>
  {
    if |bs| == 0 then []
    else
      var last := bs[|bs| - 1];
      EntriesOn(bs[..|bs| - 1], d) + (if last.date == d then [Entry(last.itmId, last.meal)] else [])
  }

  /** parse_generated_menu: an absent or empty string gives the empty map;
      otherwise every date that occurs is a key, and its list holds one entry
      per triple of that date, in source order, duplicates included. */
  method ParseGeneratedMenu(genStr: Option<string>) returns (out: map<string, seq<Entry>>)
    ensures genStr == None || genStr == Some("") ==> out == map[]
    ensures genStr.Some? ==> forall d :: d in out <==> d in DatesOf(FindAll(genStr.value))
    ensures genStr.Some? ==> forall d :: d in out ==> out[d] == EntriesOn(FindAll(genStr.value), d)
  {
    out := map[];
    if genStr == None || genStr == Some("") {
      return;
    }
    var pairs := FindAll(genStr.value);
    var k := 0;
    assert Grouped(out, pairs[..0]);
    while k < |pairs|
      invariant 0 <= k <= |pairs|
      invariant Grouped(out, pairs[..k])
    {
      var p := pairs[k];
      var e := Entry(p.itmId, p.meal);
      if p.date in out {
        GroupedStep(out, pairs, k, out[p.date := out[p.date] + [e]]);
        out := out[p.date := out[p.date] + [e]];
      } else {
        GroupedStep(out, pairs, k, out[p.date := [e]]);
        out := out[p.date := [e]];
      }
      k := k + 1;
    }
    assert pairs[..k] == pairs;
  }

  /** The loop's invariant: `out` groups the triples read so far by date. */
  ghost predicate Grouped(out: map<string, seq<Entry>>, bs: seq<Bracket>)
  {
    && (forall d :: d in out <==> d in DatesOf(bs))
    && (forall d :: d in out ==> out[d] == EntriesOn(bs, d))
  }

  /** Reading triple k appends its entry to its date's list, creating the
      list when the date is new. */
  lemma GroupedStep(out: map<string, seq<Entry>>, bs: seq<Bracket>, k: nat, out': map<string, seq<Entry>>)
    requires k < |bs| && Grouped(out, bs[..k])
    requires var p := bs[k]; var e := Entry(p.itmId, p.meal);
      out' == if p.date in out then out[p.date := out[p.date] + [e]] else out[p.date := [e]]
    ensures Grouped(out', bs[..k + 1])
  {
    var p := bs[k];
    PrefixStep(bs, k);
    if p.date !in out {
      EntriesOnAbsent(bs[..k], p.date);
    }
  }

  /** Extending the prefix read so far by one triple adds its date and
      appends its entry to that date only. */
  lemma PrefixStep(bs: seq<Bracket>, k: nat)
    requires k < |bs|
    ensures DatesOf(bs[..k + 1]) == DatesOf(bs[..k]) + {bs[k].date}
    ensures forall d ::
              EntriesOn(bs[..k + 1], d) ==
              EntriesOn(bs[..k], d) + (if bs[k].date == d then [Entry(bs[k].itmId, bs[k].meal)] else [])
  {
    assert bs[..k + 1][..k] == bs[..k];
    forall x | x in DatesOf(bs[..k + 1]) ensures x in DatesOf(bs[..k]) + {bs[k].date} {
      var j :| 0 <= j < k + 1 && bs[..k + 1][j].date == x;
      if j < k { assert bs[..k][j].date == x; }
    }
    forall x | x in DatesOf(bs[..k]) ensures x in DatesOf(bs[..k + 1]) {
      var j :| 0 <= j < k && bs[..k][j].date == x;
      assert bs[..k + 1][j].date == x;
    }
    assert bs[..k + 1][k].date == bs[k].date;
  }

  lemma {:induction false} EntriesOnAbsent(bs: seq<Bracket>, d: string)
    requires d !in DatesOf(bs)
    ensures EntriesOn(bs, d) == []
  {
    if |bs| > 0 {
      assert DatesOf(bs[..|bs| - 1]) <= DatesOf(bs) by {
        forall x | x in DatesOf(bs[..|bs| - 1]) ensures x in DatesOf(bs) {
          var j :| 0 <= j < |bs| - 1 && bs[..|bs| - 1][j].date == x;
          assert bs[j].date == x;
        }
      }
      assert bs[|bs| - 1].date in DatesOf(bs);
      EntriesOnAbsent(bs[..|bs| - 1], d);
    }
  }

  /** A date that occurs has at least one entry. */
  lemma {:induction false} EntriesOnPresent(bs: seq<Bracket>, d: string)
    requires d in DatesOf(bs)
    ensures |EntriesOn(bs, d)| > 0
  {
    var j :| 0 <= j < |bs| && bs[j].date == d;
    if j < |bs| - 1 {
      assert bs[..|bs| - 1][j].date == d;
      EntriesOnPresent(bs[..|bs| - 1], d);
    }
  }

  // ------------------------------------------------------------- writing

  /** The canonical text of one triple, as appended to the persisted plan. */
  function Render(b: Bracket): (s: string)
    requires WellFormed(b)
    ensures |s| > 0 && s[0] == '['
  {
    "[" + (b.date + ("," + (NatToString(b.itmId) + ("," + ([DigitChar(b.meal)] + "]")))))
  }

  function Serialize(bs: seq<Bracket>): (s: string)
    requires forall k :: 0 <= k < |bs| ==> WellFormed(bs[k])
    ensures |bs| == 0 <==> s == ""
    ensures |bs| > 0 ==> s[0] == '['
  {
    if |bs| == 0 then "" else Render(bs[0]) + Serialize(bs[1..])
  }

  predicate AllSpaces(w: string)
  {
    forall i :: 0 <= i < |w| ==> IsSpace(w[i])
  }

  lemma {:induction false} LStripSpaces(w: string, x: string)
    requires AllSpaces(w) && |x| > 0 && !IsSpace(x[0])
    ensures LStrip(w + x) == x
  {
    if |w| > 0 {
      assert (w + x)[1..] == w[1..] + x;
      LStripSpaces(w[1..], x);
    } else {
      assert w + x == x;
    }
  }

  lemma {:induction false} DigitPrefixOfDigits(ds: string, x: string)
    requires AllDigits(ds) && |x| > 0 && !IsDigit(x[0])
    ensures DigitPrefix(ds + x) == |ds|
  {
    if |ds| > 0 {
      assert (ds + x)[1..] == ds[1..] + x;
      DigitPrefixOfDigits(ds[1..], x);
    } else {
      assert ds + x == x;
    }
  }

  lemma MatchMealSpaced(date: string, id: nat, m: char, w6: string, rest: string)
    requires IsDateShape(date) && IsMealChar(m) && AllSpaces(w6)
    ensures MatchMeal(date, id, [m] + (w6 + ("]" + rest))) == Some((Bracket(date, id, DigitVal(m)), rest))
  {
    var r5 := [m] + (w6 + ("]" + rest));
    assert r5[1..] == w6 + ("]" + rest);
    LStripSpaces(w6, "]" + rest);
    assert ("]" + rest)[1..] == rest;
  }

  lemma MatchItemSpaced(date: string, id: nat, w3: string, w4: string, tail: string)
    requires IsDateShape(date) && AllSpaces(w3) && AllSpaces(w4)
    requires |tail| > 0 && (tail[0] == ']' || tail[0] == ',')
    ensures MatchItem(date, "," + (w3 + (NatToString(id) + (w4 + tail))))
            == MatchClose(date, id, tail)
  {
    var digits := NatToString(id);
    var r3 := digits + (w4 + tail);
    assert ("," + (w3 + r3))[1..] == w3 + r3;
    LStripSpaces(w3, r3);
    assert (w4 + tail)[0] == if |w4| > 0 then w4[0] else tail[0];
    DigitPrefixOfDigits(digits, w4 + tail);
    assert r3[..|digits|] == digits && r3[|digits|..] == w4 + tail;
    NatToStringRoundTrip(id);
    LStripSpaces(w4, tail);
  }

  lemma MatchOpenSpaced(date: string, w1: string, w2: string, tail: string)
    requires IsDateShape(date) && AllSpaces(w1) && AllSpaces(w2) && |tail| > 0 && tail[0] == ','
    ensures MatchBracket("[" + (w1 + (date + (w2 + tail)))) == MatchItem(date, tail)
  {
    var r1 := date + (w2 + tail);
    assert ("[" + (w1 + r1))[1..] == w1 + r1;
    LStripSpaces(w1, r1);
    assert r1[..10] == date && r1[10..] == w2 + tail;
    LStripSpaces(w2, tail);
  }

  /** The pattern reads a triple with whitespace around any field, and gives
      back exactly the text that follows it. */
  lemma MatchSpaced(b: Bracket, w1: string, w2: string, w3: string, w4: string,
                    w5: string, w6: string, rest: string)
    requires WellFormed(b)
    requires AllSpaces(w1) && AllSpaces(w2) && AllSpaces(w3)
    requires AllSpaces(w4) && AllSpaces(w5) && AllSpaces(w6)
    ensures MatchBracket("[" + (w1 + (b.date + (w2 + ("," + (w3 + (NatToString(b.itmId) + (w4
                         + ("," + (w5 + ([DigitChar(b.meal)] + (w6 + ("]" + rest))))))))))))) == Some((b, rest))
  {
    var m := DigitChar(b.meal);
    var r5 := [m] + (w6 + ("]" + rest));
    var r4 := "," + (w5 + r5);
    var r2 := "," + (w3 + (NatToString(b.itmId) + (w4 + r4)));
    MatchOpenSpaced(b.date, w1, w2, r2);
    MatchItemSpaced(b.date, b.itmId, w3, w4, r4);
    assert r4[1..] == w5 + r5;
    LStripSpaces(w5, r5);
    MatchMealSpaced(b.date, b.itmId, m, w6, rest);
  }

  /** A legacy triple without a meal field is read as a dinner (meal 3). */
  lemma MatchLegacy(date: string, id: nat, w1: string, w2: string, w3: string, w4: string,
                    rest: string)
    requires IsDateShape(date)
    requires AllSpaces(w1) && AllSpaces(w2) && AllSpaces(w3) && AllSpaces(w4)
    ensures MatchBracket("[" + (w1 + (date + (w2 + ("," + (w3 + (NatToString(id) + (w4 + ("]" + rest)))))))))
            == Some((Bracket(date, id, 3), rest))
  {
    var r4 := "]" + rest;
    MatchOpenSpaced(date, w1, w2, "," + (w3 + (NatToString(id) + (w4 + r4))));
    MatchItemSpaced(date, id, w3, w4, r4);
    assert r4[1..] == rest;
  }

  lemma Assoc(a: string, b: string, c: string)
    ensures a + b + c == a + (b + c)
  {
  }

  lemma MatchRender(b: Bracket, rest: string)
    requires WellFormed(b)
    ensures MatchBracket(Render(b) + rest) == Some((b, rest))
  {
    var m := [DigitChar(b.meal)];
    var d := NatToString(b.itmId);
    var t5 := m + ("]" + rest);
    var t3 := d + ("," + t5);
    var t1 := b.date + ("," + t3);
    assert Render(b) + rest == "[" + t1 by {
      Assoc(m, "]", rest);
      Assoc(",", m + "]", rest);
      Assoc(d, "," + (m + "]"), rest);
      Assoc(",", d + ("," + (m + "]")), rest);
      Assoc(b.date, "," + (d + ("," + (m + "]"))), rest);
      Assoc("[", b.date + ("," + (d + ("," + (m + "]")))), rest);
    }
    var sp := "[" + ("" + (b.date + ("" + ("," + ("" + (d + (""
              + ("," + ("" + (m + ("" + ("]" + rest))))))))))));
    assert sp == "[" + t1 by {
      assert "" + ("]" + rest) == "]" + rest;
      assert "" + t5 == t5;
      assert "" + (d + ("" + ("," + ("" + t5)))) == t3;
      assert "" + (b.date + ("" + ("," + ("" + t3)))) == t1;
    }
    MatchSpaced(b, "", "", "", "", "", "", rest);
    assert MatchBracket(sp) == Some((b, rest));
  }

  lemma FindAllRender(b: Bracket, rest: string)
    requires WellFormed(b)
    ensures FindAll(Render(b) + rest) == [b] + FindAll(rest)
  {
    MatchRender(b, rest);
  }

  /** Reading back a serialized plan gives exactly its triples, in order. */
  lemma {:induction false} PlanRoundTrip(bs: seq<Bracket>)
    requires forall k :: 0 <= k < |bs| ==> WellFormed(bs[k])
    ensures FindAll(Serialize(bs)) == bs
  {
    if |bs| > 0 {
      FindAllRender(bs[0], Serialize(bs[1..]));
      PlanRoundTrip(bs[1..]);
    }
  }

  // ----------------------------------------------------- appending to a plan

  lemma {:induction false} LStripAppend(x: string, t: string)
    requires |t| > 0 && !IsSpace(t[0])
    ensures LStrip(x + t) == LStrip(x) + t
  {
    if |x| > 0 {
      assert (x + t)[1..] == x[1..] + t;
      LStripAppend(x[1..], t);
    } else {
      assert x + t == t;
    }
  }

  lemma {:induction false} DigitPrefixAppend(x: string, t: string)
    requires |t| > 0 && !IsDigit(t[0])
    ensures DigitPrefix(x + t) == DigitPrefix(x)
  {
    if |x| > 0 {
      assert (x + t)[1..] == x[1..] + t;
      DigitPrefixAppend(x[1..], t);
    } else {
      assert x + t == t;
    }
  }

  /** Re-attach text after a match result. */
  function Lift(m: Option<(Bracket, string)>, t: string): Option<(Bracket, string)>
  {
    match m
    case None => None
    case Some((b, rest)) => Some((b, rest + t))
  }

  lemma MatchMealAppend(date: string, id: nat, r5: string, t: string)
    requires IsDateShape(date) && |t| > 0 && t[0] == '['
    ensures MatchMeal(date, id, r5 + t) == Lift(MatchMeal(date, id, r5), t)
  {
    if |r5| == 0 {
      assert r5 + t == t;
    } else if IsMealChar(r5[0]) {
      assert (r5 + t)[0] == r5[0] && (r5 + t)[1..] == r5[1..] + t;
      var r6 := LStrip(r5[1..]);
      LStripAppend(r5[1..], t);
      if |r6| > 0 {
        assert (r6 + t)[0] == r6[0] && (r6 + t)[1..] == r6[1..] + t;
      }
    } else {
      assert (r5 + t)[0] == r5[0];
    }
  }

  lemma MatchCloseAppend(date: string, id: nat, r4: string, t: string)
    requires IsDateShape(date) && |t| > 0 && t[0] == '['
    ensures MatchClose(date, id, r4 + t) == Lift(MatchClose(date, id, r4), t)
  {
    if |r4| == 0 {
      assert r4 + t == t;
    } else {
      assert (r4 + t)[0] == r4[0] && (r4 + t)[1..] == r4[1..] + t;
      if r4[0] == ',' {
        LStripAppend(r4[1..], t);
        MatchMealAppend(date, id, LStrip(r4[1..]), t);
      }
    }
  }

  lemma MatchItemAppend(date: string, r2: string, t: string)
    requires IsDateShape(date) && |t| > 0 && t[0] == '['
    ensures MatchItem(date, r2 + t) == Lift(MatchItem(date, r2), t)
  {
    if |r2| == 0 {
      assert r2 + t == t;
    } else if r2[0] == ',' {
      assert (r2 + t)[0] == r2[0] && (r2 + t)[1..] == r2[1..] + t;
      var r3 := LStrip(r2[1..]);
      LStripAppend(r2[1..], t);
      var n := DigitPrefix(r3);
      DigitPrefixAppend(r3, t);
      if n > 0 {
        assert (r3 + t)[..n] == r3[..n] && (r3 + t)[n..] == r3[n..] + t;
        LStripAppend(r3[n..], t);
        MatchCloseAppend(date, DigitsValue(r3[..n]), LStrip(r3[n..]), t);
      }
    } else {
      assert (r2 + t)[0] == r2[0];
    }
  }

  lemma MatchDateAppend(r1: string, t: string)
    requires |t| > 0 && t[0] == '['
    ensures MatchDate(r1 + t) == Lift(MatchDate(r1), t)
  {
    if |r1| < 10 {
      if |r1 + t| >= 10 {
        assert (r1 + t)[..10][|r1|] == '[';
      }
    } else {
      assert (r1 + t)[..10] == r1[..10];
      if IsDateShape(r1[..10]) {
        assert (r1 + t)[10..] == r1[10..] + t;
        LStripAppend(r1[10..], t);
        MatchItemAppend(r1[..10], LStrip(r1[10..]), t);
      }
    }
  }

  /** Text that begins with '[' cannot complete a match begun before it:
      the attempt gives the same result on s alone as on s followed by t. */
  lemma MatchAppend(s: string, t: string)
    requires |s| > 0 && |t| > 0 && t[0] == '['
    ensures MatchBracket(s + t) == Lift(MatchBracket(s), t)
  {
    assert (s + t)[0] == s[0];
    if s[0] == '[' {
      assert (s + t)[1..] == s[1..] + t;
      LStripAppend(s[1..], t);
      MatchDateAppend(LStrip(s[1..]), t);
    }
  }

  /** findall over s followed by text that begins with '[' is findall over s
      followed by findall over that text. */
  lemma {:induction false} FindAllAppend(s: string, t: string)
    requires |t| > 0 && t[0] == '['
    ensures FindAll(s + t) == FindAll(s) + FindAll(t)
    decreases |s|
  {
    if |s| == 0 {
      assert s + t == t;
    } else {
      MatchAppend(s, t);
      match MatchBracket(s)
      case Some((b, rest)) =>
        FindAllAppend(rest, t);
      case None =>
        assert (s + t)[1..] == s[1..] + t;
        FindAllAppend(s[1..], t);
    }
  }

  /** Appending one rendered triple to any stored plan text, well formed or
      not, leaves every triple read before unchanged and adds exactly the new
      one at the end. */
  lemma AppendTriple(s: string, b: Bracket)
    requires WellFormed(b)
    ensures FindAll(s + Render(b)) == FindAll(s) + [b]
  {
    FindAllAppend(s, Render(b));
    FindAllRender(b, "");
    assert Render(b) + "" == Render(b);
    assert FindAll("") == [];
  }

  /** After an append, the new entry is last in its day's list and no other
      day changes. */
  lemma AppendTripleEntries(s: string, b: Bracket, d: string)
    requires WellFormed(b)
    ensures EntriesOn(FindAll(s + Render(b)), d) ==
            EntriesOn(FindAll(s), d) + (if b.date == d then [Entry(b.itmId, b.meal)] else [])
  {
    AppendTriple(s, b);
    var bs := FindAll(s) + [b];
    assert bs[..|bs| - 1] == FindAll(s);
  }

  // --------------------------------------------------------- what is skipped

  /** Text without '[' holds no match, so it contributes nothing. */
  lemma {:induction false} NoOpenBracket(p: string, rest: string)
    requires '[' !in p
    ensures FindAll(p + rest) == FindAll(rest)
  {
    if |p| > 0 {
      assert (p + rest)[0] == p[0];
      assert (p + rest)[1..] == p[1..] + rest;
      assert '[' !in p[1..];
      NoOpenBracket(p[1..], rest);
    } else {
      assert p + rest == rest;
    }
  }

  /** A date of the shape dddd-dd-dd holds no '[', so no match can start
      inside it. */
  lemma DateHasNoOpen(date: string)
    requires IsDateShape(date)
    ensures '[' !in date
  {
    forall j | 0 <= j < |date| ensures date[j] != '[' {
      assert j in {0, 1, 2, 3, 4, 5, 6, 7, 8, 9};
    }
  }

  /** The attempt at the opening bracket fails at a meal digit outside 1..3. */
  lemma BadMealNoMatch(date: string, id: nat, c: char, rest: string)
    requires IsDateShape(date) && IsDigit(c) && !IsMealChar(c)
    ensures MatchBracket("[" + (date + ("," + (NatToString(id) + ("," + ([c] + ("]" + rest))))))) == None
  {
    var digits := NatToString(id);
    var r4 := "," + ([c] + ("]" + rest));
    var r2 := "," + (digits + r4);
    assert "[" + ("" + (date + ("" + r2))) == "[" + (date + r2) by {
      assert "" + r2 == r2;
    }
    assert "," + ("" + (digits + ("" + r4))) == r2 by {
      assert "" + r4 == r4;
    }
    MatchOpenSpaced(date, "", "", r2);
    MatchItemSpaced(date, id, "", "", r4);
    MatchCloseBadMeal(date, id, c, rest);
  }

  lemma MatchCloseBadMeal(date: string, id: nat, c: char, rest: string)
    requires IsDateShape(date) && IsDigit(c) && !IsMealChar(c)
    ensures MatchClose(date, id, "," + ([c] + ("]" + rest))) == None
  {
    var r4 := "," + ([c] + ("]" + rest));
    assert r4[1..] == [c] + ("]" + rest);
  }

  lemma BadMealSkipped(date: string, id: nat, c: char, rest: string)
    requires IsDateShape(date) && IsDigit(c) && !IsMealChar(c)
    ensures FindAll("[" + (date + ("," + (NatToString(id) + ("," + ([c] + ("]" + rest))))))) == FindAll(rest)
  {
    var digits := NatToString(id);
    var s := "[" + (date + ("," + (digits + ("," + ([c] + ("]" + rest))))));
    var p := date + ("," + (digits + ("," + ([c] + "]"))));
    BadMealNoMatch(date, id, c, rest);
    assert s[1..] == p + rest by {
      Assoc([c], "]", rest);
      Assoc(",", [c] + "]", rest);
      Assoc(digits, "," + ([c] + "]"), rest);
      Assoc(",", digits + ("," + ([c] + "]")), rest);
      Assoc(date, "," + (digits + ("," + ([c] + "]"))), rest);
    }
    DateHasNoOpen(date);
    assert '[' !in digits;
    NoOpenBracket(p, rest);
  }

  /** The date is not checked against the calendar: month 13, day 45 is kept. */
  lemma DateNotCalendarChecked()
    ensures FindAll("[2025-13-45,7,1]") == [Bracket("2025-13-45", 7, 1)]
  {
    var b := Bracket("2025-13-45", 7, 1);
    assert Render(b) + "" == "[2025-13-45,7,1]" by {
      assert NatToString(7) == "7";
      assert DigitChar(1) == '1';
    }
    FindAllRender(b, "");
  }
}
