/** How one segment (a list of strings) is written to the EDS output, and how
    the written text reads back as the same segment. */
module Segments {
  import opened Basics

  /** The strings of a segment, in order, with one comma between neighbours. */
  function Join(segment: seq<string>): string
  {
    if |segment| == 0 then ""
    else if |segment| == 1 then segment[0]
    else segment[0] + "," + Join(segment[1..])
  }

  /** The text of one segment: a single string stands for itself, any other
      segment (including an empty one) is a brace-delimited, comma-separated
      set. */
  function Token(segment: seq<string>): string
  {
    if |segment| == 1 then segment[0] else "{" + Join(segment) + "}"
  }

  /** Appending one more string to a segment appends a separating comma (when
      the segment was not empty) and the string itself to the joined text. */
  lemma {:induction false} JoinSnoc(segment: seq<string>, x: string)
    ensures Join(segment + [x]) == Join(segment) + (if |segment| > 0 then "," else "") + x
  {
    if |segment| >= 2 {
      assert (segment + [x])[1..] == segment[1..] + [x];
      JoinSnoc(segment[1..], x);
    } else if |segment| == 1 {
      assert (segment + [x])[1..] == [x];
    }
  }

  /** Writes `segment` after `out`, one string at a time, a comma after every
      string but the last. */
  method Output(out: string, segment: seq<string>) returns (w: string)
    ensures w == out + Token(segment)
  {
    if |segment| == 1 {
      w := out + segment[0];
    } else {
      var j := 1;
      var l := |segment|;
      w := out + "{";
      ghost var prefix := w;
      ghost var body := "";
      var n := 0;
      while n < l
        invariant 0 <= n <= l && j == n + 1
        invariant body == Join(segment[..n]) + (if 0 < n < l then "," else "")
        invariant w == prefix + body
      {
        var s := segment[n];
        assert segment[..n + 1] == segment[..n] + [s];
        JoinSnoc(segment[..n], s);
        AppendAssoc(prefix, body, s);
        w, body := w + s, body + s;
        if j != l {
          AppendAssoc(prefix, body, ",");
          w, body := w + ",", body + ",";
        }
        j := j + 1;
        n := n + 1;
      }
      assert segment[..n] == segment;
      assert body == Join(segment);
      w := w + "}";
    }
  }

  predicate IsComma(ch: char) { ch == ',' }

  /** Number of commas in a string. */
  function Commas(s: string): nat
  {
    |Select(s, IsComma)|
  }

  lemma {:induction false} CommasAppend(a: string, b: string)
    ensures Commas(a + b) == Commas(a) + Commas(b)
  {
    SelectAppend(a, b, IsComma);
  }

  lemma {:induction false} NoCommas(s: string)
    requires ',' !in s
    ensures Commas(s) == 0
  {
    var r := Select(s, IsComma);
    if r != [] {
      SelectCount(s, IsComma, r[0]);
    }
  }

  /** A segment of n comma-free strings is joined with exactly n - 1 commas. */
  lemma {:induction false} JoinCommas(segment: seq<string>)
    requires |segment| > 0
    requires forall x :: x in segment ==> ',' !in x
    ensures Commas(Join(segment)) == |segment| - 1
  {
    NoCommas(segment[0]);
    if |segment| > 1 {
      JoinCommas(segment[1..]);
      CommasAppend(segment[0], ",");
      assert Commas(",") == 1 by {
        assert "," == [','];
      }
      CommasAppend(segment[0] + ",", Join(segment[1..]));
    }
  }

  /** A segment written in braces carries exactly n - 1 commas of its own,
      and none at all when it is written bare. */
  lemma TokenCommas(segment: seq<string>)
    requires |segment| > 0
    requires forall x :: x in segment ==> ',' !in x
    ensures Commas(Token(segment)) == |segment| - 1
  {
    JoinCommas(segment);
    if |segment| > 1 {
      NoCommas("{");
      NoCommas("}");
      CommasAppend("{", Join(segment));
      CommasAppend("{" + Join(segment), "}");
    }
  }

  /** Cuts a string at every comma. */
  function Split(s: string): (r: seq<string>)
    ensures |r| >= 1
  {
    if s == [] then [""]
    else
      var t := Split(s[1..]);
      if s[0] == ',' then [""] + t else [[s[0]] + t[0]] + t[1..]
  }

  lemma {:induction false} SplitNoComma(a: string)
    requires ',' !in a
    ensures Split(a) == [a]
  {
    if a != [] {
      SplitNoComma(a[1..]);
      assert [a[0]] + a[1..] == a;
    }
  }

  lemma {:induction false} SplitAfterField(a: string, rest: string)
    requires ',' !in a
    ensures Split(a + "," + rest) == [a] + Split(rest)
  {
    if a == [] {
      assert a + "," + rest == [','] + rest;
      assert ([','] + rest)[1..] == rest;
    } else {
      var s := a + "," + rest;
      assert s[0] == a[0];
      assert s[1..] == a[1..] + "," + rest;
      SplitAfterField(a[1..], rest);
      assert [a[0]] + a[1..] == a;
    }
  }

  /** Cutting the joined text at its commas gives the segment back. */
  lemma {:induction false} SplitJoin(segment: seq<string>)
    requires |segment| > 0
    requires forall x :: x in segment ==> ',' !in x
    ensures Split(Join(segment)) == segment
  {
    if |segment| == 1 {
      SplitNoComma(segment[0]);
    } else {
      SplitJoin(segment[1..]);
      SplitAfterField(segment[0], Join(segment[1..]));
      assert [segment[0]] + segment[1..] == segment;
    }
  }

  /** Reads one token back: a brace-delimited text is a set of strings, any
      other text a single string. */
  function Parse(t: string): seq<string>
  {
    if |t| >= 2 && t[0] == '{' && t[|t| - 1] == '}' then Split(t[1..|t| - 1]) else [t]
  }

  /** Round trip of the EDS token format: a non-empty segment whose strings
      hold no comma and no opening brace reads back from its text unchanged. */
  lemma ParseToken(segment: seq<string>)
    requires |segment| > 0
    requires forall x :: x in segment ==> ',' !in x && '{' !in x
    ensures Parse(Token(segment)) == segment
  {
    if |segment| == 1 {
      var x := segment[0];
      assert |x| >= 2 ==> x[0] in x;
    } else {
      var t := Token(segment);
      assert t[1..|t| - 1] == Join(segment);
      SplitJoin(segment);
    }
  }
}
