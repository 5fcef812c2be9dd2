/** Field splitting as the C library's strtok/strtok_r does it with a
    one-character delimiter: leading delimiters are skipped, a field runs up
    to the next delimiter or the end, and empty fields never appear.
    The shell uses it for the '|' stages of a line and the ':' entries of PATH. */
module StrTok {
  import opened Wrappers

  /** Length of the field at the start of s: the index of the first
      delimiter, or |s| when there is none. */
  function FieldLength(s: string, d: char): (n: nat)
    ensures n <= |s|
    ensures forall j :: 0 <= j < n ==> s[j] != d
    ensures n < |s| ==> s[n] == d
  {
    if s == [] || s[0] == d then 0 else 1 + FieldLength(s[1..], d)
  }

  /** The number of delimiters s starts with. */
  function LeadingDelims(s: string, d: char): (k: nat)
    ensures k <= |s|
    ensures forall j :: 0 <= j < k ==> s[j] == d
    ensures k < |s| ==> s[k] != d
  {
    if s == [] || s[0] != d then 0 else 1 + LeadingDelims(s[1..], d)
  }

  /** One call of strtok: None when only delimiters are left, otherwise the
      next field and the text after it (the delimiter that ended the field,
      which strtok overwrites with a NUL, is consumed); NextTokenAt says
      where in s the field lies. */
  function NextToken(s: string, d: char): (r: Option<(string, string)>)
    ensures r.None? <==> forall j :: 0 <= j < |s| ==> s[j] == d
    ensures r.Some? ==> r.value.0 != [] && |r.value.1| < |s|
    ensures r.Some? ==> forall j :: 0 <= j < |r.value.0| ==> r.value.0[j] != d
    decreases |s|
  {
    if s == [] then None
    else if s[0] == d then NextToken(s[1..], d)
    else
      var n := FieldLength(s, d);
      Some((s[..n], if n < |s| then s[n + 1..] else []))
  }

  /** The field strtok returns starts right after the leading delimiters
      and runs up to the next delimiter, which separates it from the rest,
      or to the end of s. */
  lemma {:induction false} NextTokenAt(s: string, d: char)
    requires NextToken(s, d).Some?
    ensures var k, tok, rest := LeadingDelims(s, d), NextToken(s, d).value.0, NextToken(s, d).value.1;
            && k + |tok| <= |s| && s[k..k + |tok|] == tok
            && (k + |tok| < |s| ==> s[k + |tok|] == d && rest == s[k + |tok| + 1..])
            && (k + |tok| == |s| ==> rest == [])
    decreases |s|
  {
    if s[0] == d {
      NextTokenAt(s[1..], d);
      var k := LeadingDelims(s[1..], d);
      var tok := NextToken(s, d).value.0;
      assert NextToken(s, d) == NextToken(s[1..], d);
      assert LeadingDelims(s, d) == k + 1;
      assert s[k + 1..k + 1 + |tok|] == s[1..][k..k + |tok|];
      if k + 1 + |tok| < |s| {
        assert s[k + 1 + |tok| + 1..] == s[1..][k + |tok| + 1..];
      }
    } else {
      assert LeadingDelims(s, d) == 0;
    }
  }

  /** All fields strtok hands out, in order. */
  function Fields(s: string, d: char): (fs: seq<string>)
    decreases |s|
  {
    match NextToken(s, d)
    case None => []
    case Some((tok, rest)) => [tok] + Fields(rest, d)
  }

  /** Every character of s except the delimiters, in order. */
  function Strip(s: string, d: char): (r: string)
  {
    if s == [] then [] else (if s[0] == d then [] else [s[0]]) + Strip(s[1..], d)
  }

  function Concat(fs: seq<string>): string
  {
    if fs == [] then [] else fs[0] + Concat(fs[1..])
  }

  lemma {:induction false} StripAppend(a: string, b: string, d: char)
    ensures Strip(a + b, d) == Strip(a, d) + Strip(b, d)
  {
    if a != [] {
      assert (a + b)[1..] == a[1..] + b;
      StripAppend(a[1..], b, d);
    } else {
      assert a + b == b;
    }
  }

  lemma {:induction false} StripNoDelim(s: string, d: char)
    requires forall j :: 0 <= j < |s| ==> s[j] != d
    ensures Strip(s, d) == s
  {
    if s != [] {
      StripNoDelim(s[1..], d);
    }
  }

  lemma {:induction false} StripAllDelim(s: string, d: char)
    requires forall j :: 0 <= j < |s| ==> s[j] == d
    ensures Strip(s, d) == []
  {
    if s != [] {
      StripAllDelim(s[1..], d);
    }
  }

  /** The text that NextToken skips and consumes around the field it returns
      holds nothing but delimiters. */
  lemma {:induction false} NextTokenStrip(s: string, d: char)
    requires NextToken(s, d).Some?
    ensures Strip(s, d) == NextToken(s, d).value.0 + Strip(NextToken(s, d).value.1, d)
    decreases |s|
  {
    if s[0] == d {
      NextTokenStrip(s[1..], d);
      assert s == [s[0]] + s[1..];
      StripAppend([s[0]], s[1..], d);
    } else {
      var n := FieldLength(s, d);
      assert s == s[..n] + s[n..];
      StripAppend(s[..n], s[n..], d);
      StripNoDelim(s[..n], d);
      if n < |s| {
        assert s[n..] == [s[n]] + s[n + 1..];
        StripAppend([s[n]], s[n + 1..], d);
      }
    }
  }

  /** Splitting loses exactly the delimiters: joining the fields gives s with
      every delimiter removed. */
  lemma {:induction false} FieldsConcat(s: string, d: char)
    ensures Concat(Fields(s, d)) == Strip(s, d)
    decreases |s|
  {
    match NextToken(s, d)
    case None =>
      StripAllDelim(s, d);
    case Some((tok, rest)) =>
      FieldsConcat(rest, d);
      NextTokenStrip(s, d);
      assert Fields(s, d) == [tok] + Fields(rest, d);
      assert ([tok] + Fields(rest, d))[1..] == Fields(rest, d);
  }

  /** Every field is non-empty and free of delimiters. */
  lemma {:induction false} FieldsWellFormed(s: string, d: char)
    ensures forall i :: 0 <= i < |Fields(s, d)| ==>
              Fields(s, d)[i] != [] && d !in Fields(s, d)[i]
    decreases |s|
  {
    match NextToken(s, d)
    case None =>
    case Some((tok, rest)) =>
      FieldsWellFormed(rest, d);
      assert Fields(s, d) == [tok] + Fields(rest, d);
      forall i | 0 <= i < |Fields(s, d)|
        ensures Fields(s, d)[i] != [] && d !in Fields(s, d)[i]
      {
        if i > 0 {
          assert Fields(s, d)[i] == Fields(rest, d)[i - 1];
        }
      }
  }

  /** A strtok loop that has handed out k fields of s and has rest left
      gets field k from its next call, and field k + 1 on is what is left
      after it. */
  lemma NextField(s: string, rest: string, k: nat, d: char)
    requires k <= |Fields(s, d)|
    requires Fields(rest, d) == Fields(s, d)[k..]
    requires NextToken(rest, d).Some?
    ensures k < |Fields(s, d)|
    ensures NextToken(rest, d).value.0 == Fields(s, d)[k]
    ensures Fields(NextToken(rest, d).value.1, d) == Fields(s, d)[k + 1..]
  {
    var fs := Fields(s, d);
    assert Fields(rest, d) == [NextToken(rest, d).value.0] + Fields(NextToken(rest, d).value.1, d);
    assert fs[k..][0] == fs[k];
    assert fs[k..][1..] == fs[k + 1..];
  }

  /** Text with no delimiter at either end and no two delimiters in a row. */
  ghost predicate Separated(s: string, d: char)
  {
    s == [] || (s[0] != d && s[|s| - 1] != d && forall j :: 0 <= j < |s| - 1 ==> !DoubleAt(s, d, j))
  }

  /** Two delimiters in a row at index j. */
  predicate DoubleAt(s: string, d: char, j: nat)
    requires j + 1 < |s|
  {
    s[j] == d && s[j + 1] == d
  }

  /** The fields put back together with one delimiter between each two. */
  function Join(fs: seq<string>, d: char): string
  {
    if fs == [] then [] else if |fs| == 1 then fs[0] else fs[0] + [d] + Join(fs[1..], d)
  }

  /** On separated text splitting is undone by joining: each field ends
      exactly at a delimiter of s. */
  lemma {:induction false} FieldsJoin(s: string, d: char)
    requires Separated(s, d)
    ensures Join(Fields(s, d), d) == s
    decreases |s|
  {
    if s != [] {
      var n := FieldLength(s, d);
      var tok := s[..n];
      var rest := if n < |s| then s[n + 1..] else [];
      FieldsHead(s, d, n, tok, rest);
      if n < |s| {
        SeparatedRest(s, d, n);
        FieldsJoin(rest, d);
        FieldsStart(rest, d);
        JoinAround(s, d, n, Fields(s, d), Fields(rest, d));
      } else {
        assert Fields(rest, d) == [];
        assert tok == s;
      }
    }
  }

  /** The first field of text that starts with a non-delimiter. */
  lemma FieldsHead(s: string, d: char, n: nat, tok: string, rest: string)
    requires s != [] && s[0] != d && n == FieldLength(s, d)
    requires tok == s[..n] && rest == if n < |s| then s[n + 1..] else []
    ensures Fields(s, d) == [tok] + Fields(rest, d)
  {
    assert NextToken(s, d) == Some((tok, rest));
  }

  /** Text that starts with a non-delimiter has a field. */
  lemma FieldsStart(s: string, d: char)
    requires s != [] && s[0] != d
    ensures Fields(s, d) != []
  {
    assert NextToken(s, d).Some?;
  }

  /** What follows a delimiter inside separated text is separated. */
  lemma SeparatedRest(s: string, d: char, n: nat)
    requires Separated(s, d) && n < |s| && s[n] == d
    ensures n + 1 < |s| && Separated(s[n + 1..], d) && s[n + 1..] != []
  {
    var rest := s[n + 1..];
    assert n + 1 < |s|;
    assert !DoubleAt(s, d, n);
    forall j | 0 <= j < |rest| - 1
      ensures !DoubleAt(rest, d, j)
    {
      assert !DoubleAt(s, d, n + 1 + j);
    }
  }

  /** Joining the field before the delimiter at n with fields that join
      back to the text after it gives s. */
  lemma JoinAround(s: string, d: char, n: nat, fs: seq<string>, fr: seq<string>)
    requires n < |s| && s[n] == d && fr != [] && fs == [s[..n]] + fr && Join(fr, d) == s[n + 1..]
    ensures Join(fs, d) == s
  {
    assert fs[1..] == fr;
    assert s == s[..n] + [d] + s[n + 1..];
  }

  /** A text that does not end in a delimiter yields at least one field. */
  lemma LastCharGivesField(s: string, d: char)
    requires s != [] && s[|s| - 1] != d
    ensures |Fields(s, d)| >= 1
  {
  }

  /** A field without delimiters comes back whole. */
  lemma SingleField(s: string, d: char)
    requires s != [] && d !in s
    ensures Fields(s, d) == [s]
  {
    assert FieldLength(s, d) == |s|;
    assert s[..|s|] == s;
    assert NextToken(s, d) == Some((s, []));
    assert NextToken([], d) == None;
  }
}
