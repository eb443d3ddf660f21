/** The create-proposal form: the required-field check of `handleSubmit` and
    the parsing of the comma-separated tag field (split at every comma, trim
    each piece, drop the empty pieces). */
module ProposalForm {
  import opened Results
  import opened Seqs

  // ---------------------------------------------------------------------------
  // split(',')

  function CommaCount(s: string): nat {
    if s == [] then 0 else (if s[0] == ',' then 1 else 0) + CommaCount(s[1..])
  }

  /** `s.split(',')`: the pieces between commas, in order, empty pieces
      included; there is always one more piece than there are commas. */
  function Split(s: string): (r: seq<string>)
    ensures |r| == CommaCount(s) + 1
    ensures forall i | 0 <= i < |r| :: ',' !in r[i]
  {
    if s == [] then [""]
    else
      var rest := Split(s[1..]);
      if s[0] == ',' then [""] + rest
      else [[s[0]] + rest[0]] + rest[1..]
  }

  /** `segments.join(',')` */
  function Join(segments: seq<string>): string
    requires |segments| > 0
  {
    if |segments| == 1 then segments[0] else segments[0] + "," + Join(segments[1..])
  }

  /** Joining the pieces with commas gives back the input. */
  lemma {:induction false} JoinSplit(s: string)
    ensures Join(Split(s)) == s
  {
    if s != [] {
      JoinSplit(s[1..]);
      var rest := Split(s[1..]);
      if s[0] == ',' {
        assert Split(s) == [""] + rest;
        assert s == "," + s[1..];
      } else {
        var r := Split(s);
        assert r[0] == [s[0]] + rest[0] && r[1..] == rest[1..];
        if |rest| == 1 {
          assert s == [s[0]] + rest[0];
        } else {
          assert Join(rest) == rest[0] + "," + Join(rest[1..]);
          assert s == [s[0]] + s[1..];
        }
      }
    }
  }

  /** Splitting comma-free pieces joined with commas gives back the pieces. */
  lemma {:induction false} SplitJoin(segments: seq<string>)
    requires |segments| > 0
    requires forall i | 0 <= i < |segments| :: ',' !in segments[i]
    ensures Split(Join(segments)) == segments
    decreases |segments|, |segments[0]|
  {
    var h := segments[0];
    if |segments| == 1 {
      SplitNoComma(h);
    } else if h == [] {
      SplitJoin(segments[1..]);
      var j := Join(segments);
      assert j == "," + Join(segments[1..]);
      assert j[1..] == Join(segments[1..]);
      assert segments == [""] + segments[1..];
    } else {
      var shorter := [h[1..]] + segments[1..];
      assert shorter[1..] == segments[1..];
      assert forall i | 0 <= i < |shorter| :: ',' !in shorter[i] by {
        assert forall c | c in h[1..] :: c in h;
      }
      SplitJoin(shorter);
      var j := Join(segments);
      assert j == [h[0]] + Join(shorter);
      assert j[1..] == Join(shorter);
      assert h == [h[0]] + h[1..];
      assert h[0] in h;
    }
  }

  lemma {:induction false} SplitNoComma(s: string)
    requires ',' !in s
    ensures Split(s) == [s]
  {
    if s != [] {
      assert forall c | c in s[1..] :: c in s;
      SplitNoComma(s[1..]);
      assert s[0] in s;
      assert s == [s[0]] + s[1..];
    }
  }

  // ---------------------------------------------------------------------------
  // trim()

  /** The characters `String.prototype.trim` strips: the ECMAScript
      WhiteSpace and LineTerminator code points. */
  predicate IsSpace(c: char) {
    c in {'\t', '\n', '\U{000B}', '\U{000C}', '\r', ' ', '\U{00A0}', '\U{1680}',
          '\U{2000}', '\U{2001}', '\U{2002}', '\U{2003}', '\U{2004}', '\U{2005}',
          '\U{2006}', '\U{2007}', '\U{2008}', '\U{2009}', '\U{200A}',
          '\U{2028}', '\U{2029}', '\U{202F}', '\U{205F}', '\U{3000}', '\U{FEFF}'}
  }

  predicate AllSpace(s: string) {
    forall i | 0 <= i < |s| :: IsSpace(s[i])
  }

  /** Neither starts nor ends with a space character. */
  predicate IsTrimmed(s: string) {
    s == [] || (!IsSpace(s[0]) && !IsSpace(s[|s| - 1]))
  }

  /** Number of leading space characters. */
  function LeadingSpaces(s: string): (n: nat)
    ensures n <= |s|
    ensures AllSpace(s[..n])
    ensures n < |s| ==> !IsSpace(s[n])
  {
    if s == [] || !IsSpace(s[0]) then 0
    else
      var n := LeadingSpaces(s[1..]);
      assert s[..n + 1] == [s[0]] + s[1..][..n];
      n + 1
  }

  /** Number of trailing space characters. */
  function TrailingSpaces(s: string): (n: nat)
    ensures n <= |s|
    ensures AllSpace(s[|s| - n..])
    ensures n < |s| ==> !IsSpace(s[|s| - n - 1])
  {
    if s == [] || !IsSpace(s[|s| - 1]) then 0
    else
      var n := TrailingSpaces(s[..|s| - 1]);
      SpacesBeforeLast(s, n);
      n + 1
  }

  lemma SpacesBeforeLast(s: string, n: nat)
    requires n < |s| && IsSpace(s[|s| - 1])
    requires AllSpace(s[..|s| - 1][|s| - 1 - n..])
    ensures AllSpace(s[|s| - (n + 1)..])
  {
    var t := s[..|s| - 1][|s| - 1 - n..];
    var u := s[|s| - (n + 1)..];
    forall i | 0 <= i < |u|
      ensures IsSpace(u[i])
    {
      if i < n { assert u[i] == t[i]; }
    }
  }

  /** `s.trim()`: `s` with its leading and trailing space characters cut
      off; what is left neither starts nor ends with one, and is empty
      exactly when `s` was all spaces. */
  function Trim(s: string): (r: string)
    ensures IsTrimmed(r)
    ensures |r| <= |s|
    ensures r == [] <==> AllSpace(s)
    ensures var i := LeadingSpaces(s);
            r != [] ==> && i + |r| <= |s|
                        && r == s[i..i + |r|]
                        && AllSpace(s[..i])
                        && AllSpace(s[i + |r|..])
  {
    var i := LeadingSpaces(s);
    if i == |s| then
      assert s[..i] == s;
      ""
    else
      var rest := s[i..];
      var j := TrailingSpaces(rest);
      assert rest[0] == s[i];
      var r := rest[..|rest| - j];
      assert r[0] == s[i];
      assert r[|r| - 1] == rest[|rest| - j - 1];
      assert r == s[i..i + |r|];
      assert s[i + |r|..] == rest[|rest| - j..];
      assert !AllSpace(s) by { assert !IsSpace(s[i]); }
      r
  }

  /** Trimming a trimmed string changes nothing; in particular trimming is
      idempotent. */
  lemma TrimTrimmed(s: string)
    requires IsTrimmed(s)
    ensures Trim(s) == s
  {
    if s != [] {
      assert LeadingSpaces(s) == 0;
      assert s[..0] == [];
      assert TrailingSpaces(s[0..]) == 0 by { assert s[0..] == s; }
    }
  }

  lemma TrimIdempotent(s: string)
    ensures Trim(Trim(s)) == Trim(s)
  {
    TrimTrimmed(Trim(s));
  }

  // ---------------------------------------------------------------------------
  // Tag parsing

  predicate NonEmpty(s: string) { s != [] }

  /** The tag list the form submits. */
  function ParseTags(text: string): (tags: seq<string>)
    ensures forall i | 0 <= i < |tags| :: tags[i] != [] && Trim(tags[i]) == tags[i]
    ensures |tags| <= CommaCount(text) + 1
    ensures IsSubsequence(tags, Map(Split(text), Trim))
    ensures forall i | 0 <= i < |Split(text)| && !AllSpace(Split(text)[i]) :: Trim(Split(text)[i]) in tags
  {
    var pieces := Map(Split(text), Trim);
    var tags := Filter(pieces, NonEmpty);
    FilterMembership(pieces, NonEmpty);
    assert forall i | 0 <= i < |tags| :: Trim(tags[i]) == tags[i] by {
      forall i | 0 <= i < |tags|
        ensures Trim(tags[i]) == tags[i]
      {
        var k :| 0 <= k < |pieces| && pieces[k] == tags[i];
        TrimIdempotent(Split(text)[k]);
      }
    }
    tags
  }

  /** Tags are read from left to right: the tags parsed from `a,b` are the
      tags of `a` followed by the tags of `b`. */
  lemma {:induction false} ParseTagsConcat(a: string, b: string)
    ensures ParseTags(a + "," + b) == ParseTags(a) + ParseTags(b)
  {
    var sa := Split(a);
    var sb := Split(b);
    JoinSplit(a);
    JoinSplit(b);
    assert forall i | 0 <= i < |sa + sb| :: ',' !in (sa + sb)[i];
    JoinAppend(sa, sb);
    SplitJoin(sa + sb);
    MapAppend(sa, sb, Trim);
    FilterAppend(Map(sa, Trim), Map(sb, Trim), NonEmpty);
  }

  lemma {:induction false} JoinAppend(xs: seq<string>, ys: seq<string>)
    requires |xs| > 0 && |ys| > 0
    ensures Join(xs + ys) == Join(xs) + "," + Join(ys)
    decreases |xs|
  {
    if |xs| == 1 {
      assert (xs + ys)[1..] == ys;
    } else {
      JoinAppend(xs[1..], ys);
      assert (xs + ys)[1..] == xs[1..] + ys;
    }
  }

  // ---------------------------------------------------------------------------
  // handleSubmit

  /** What the form hands to `onSubmit`. */
  datatype ProposalDraft = ProposalDraft(title: string, description: string, tags: seq<string>)

  datatype FormError = TitleAndDescriptionRequired

  /** `handleSubmit`: refused, without calling `onSubmit`, when the title or
      the description is the empty string (a title of spaces passes: the
      check does not trim); otherwise the draft carries both fields as typed
      and the parsed tags. */
  function Submit(title: string, description: string, tagText: string): (r: Result<ProposalDraft, FormError>)
    ensures r.Err? <==> title == [] || description == []
    ensures r.Ok? ==> r.value.title == title && r.value.description == description
    ensures r.Ok? ==> r.value.tags == ParseTags(tagText)
    ensures r.Ok? ==> forall i | 0 <= i < |r.value.tags| ::
                        r.value.tags[i] != [] && IsTrimmed(r.value.tags[i])
    ensures r.Ok? ==> |r.value.tags| <= CommaCount(tagText) + 1
  {
    if title == [] || description == [] then Err(TitleAndDescriptionRequired)
    else
      var tags := ParseTags(tagText);
      assert forall i | 0 <= i < |tags| :: IsTrimmed(tags[i]) by {
        forall i | 0 <= i < |tags|
          ensures IsTrimmed(tags[i])
        {
          assert Trim(tags[i]) == tags[i];
        }
      }
      Ok(ProposalDraft(title, description, tags))
  }
}
