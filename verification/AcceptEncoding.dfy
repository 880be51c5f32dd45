/**
 When the server sends gzip: it looks for "gzip" anywhere in the Accept-Encoding header. What the header
 says is a list of codings with weights (section 5.3.4 of RFC 7231).
 */
module AcceptEncoding {
  import opened Prelude
  import opened Paths

  /** The test of the code. */
  predicate AcceptsGzip(accept: Option<string>) {
    accept.Some? && Contains(accept.value, "gzip")
  }

  // What the header means

  predicate IsBlank(c: char) {
    c == ' ' || c == '\t'
  }

  function Trim(s: string): string {
    if s != "" && IsBlank(s[0]) then Trim(s[1..])
    else if s != "" && IsBlank(s[|s| - 1]) then Trim(s[..|s| - 1])
    else s
  }

  /** ASCII letters in lower case: names of codings are compared without regard to case. */
  function Lower(s: string): string {
    seq(|s|, i requires 0 <= i < |s| => if 'A' <= s[i] <= 'Z' then s[i] - 'A' + 'a' else s[i])
  }

  function HeaderElements(header: string): seq<string> {
    SplitOn(header, ',')
  }

  function Coding(element: string): string {
    Lower(Trim(SplitOn(element, ';')[0]))
  }

  /** "x-gzip" is another name of "gzip" (section 4.2.3 of RFC 7230). */
  predicate NamesGzip(element: string) {
    Coding(element) == "gzip" || Coding(element) == "x-gzip"
  }

  /** A parameter like `q=0` or `q=0.00`. */
  predicate IsZeroWeight(parameter: string) {
    && |parameter| > 2 && (parameter[0] == 'q' || parameter[0] == 'Q') && parameter[1] == '='
    && forall i :: 2 <= i < |parameter| ==> parameter[i] == '0' || parameter[i] == '.'
  }

  /** The element comes with a weight of 0: not acceptable. */
  predicate RulesOut(element: string) {
    var parts := SplitOn(element, ';');
    exists i :: 0 < i < |parts| && IsZeroWeight(Trim(parts[i]))
  }

  predicate ListsGzip(header: string) {
    exists i :: 0 <= i < |HeaderElements(header)| && NamesGzip(HeaderElements(header)[i])
  }

  predicate WantsGzip(header: string) {
    exists i :: 0 <= i < |HeaderElements(header)| &&
      NamesGzip(HeaderElements(header)[i]) && !RulesOut(HeaderElements(header)[i])
  }

  predicate WantsAny(header: string) {
    exists i :: 0 <= i < |HeaderElements(header)| &&
      Coding(HeaderElements(header)[i]) == "*" && !RulesOut(HeaderElements(header)[i])
  }

  /** Without a header everything is acceptable; "*" stands for what is not listed. */
  predicate Acceptable(accept: Option<string>) {
    accept.Some? ==>
      if ListsGzip(accept.value) then WantsGzip(accept.value) else WantsAny(accept.value)
  }

  // The test against the meaning

  ghost predicate InSome(pieces: seq<string>, pat: string) {
    exists i :: 0 <= i < |pieces| && Contains(pieces[i], pat)
  }

  lemma SkipFirst(first: string, rest: seq<string>, pat: string)
    ensures InSome([first] + rest, pat) <==> Contains(first, pat) || InSome(rest, pat)
  {
    var pieces := [first] + rest;
    if InSome(rest, pat) {
      var i :| 0 <= i < |rest| && Contains(rest[i], pat);
      assert pieces[i + 1] == rest[i];
    }
    assert pieces[0] == first;
  }

  /** A string without separators occurs in a string exactly if it occurs in one of the pieces. */
  lemma {:induction false} ContainsInPiece(s: string, sep: char, pat: string)
    requires pat != "" && sep !in pat
    ensures Contains(s, pat) <==> InSome(SplitOn(s, sep), pat)
  {
    var pieces := SplitOn(s, sep);
    PrefixInFirstPiece(s, sep, pat);
    if s == "" {
    } else {
      var rest := SplitOn(s[1..], sep);
      ContainsInPiece(s[1..], sep, pat);
      PrefixInFirstPiece(s[1..], sep, pat);
      if s[0] == sep {
        assert pieces == [""] + rest;
        SkipFirst("", rest, pat);
      } else {
        assert pieces == [[s[0]] + rest[0]] + rest[1..];
        assert pieces[0][1..] == rest[0];
        SkipFirst(pieces[0], rest[1..], pat);
        SkipFirst(rest[0], rest[1..], pat);
        assert rest == [rest[0]] + rest[1..];
      }
    }
  }

  /** Gzip goes to a client that rules it out. */
  predicate SentUnwanted(header: string) {
    AcceptsGzip(Some(header)) && !Acceptable(Some(header))
  }

  /** A client that accepts gzip does not get it. */
  predicate Withheld(header: string) {
    !AcceptsGzip(Some(header)) && Acceptable(Some(header))
  }

  /**
   Where the test departs from the meaning: gzip is sent unwanted exactly if some element contains "gzip", none wants
   it, and "*" does not stand for it; it is withheld exactly if no element contains "gzip" in lower case
   and one wants it nevertheless, or "*" does and it is not listed.
   */
  lemma GzipTestExactlyWhen(header: string)
    ensures SentUnwanted(header) <==>
              InSome(HeaderElements(header), "gzip") && !WantsGzip(header) && (ListsGzip(header) || !WantsAny(header))
    ensures Withheld(header) <==>
              !InSome(HeaderElements(header), "gzip") && (WantsGzip(header) || (!ListsGzip(header) && WantsAny(header)))
  {
    hide Contains, InSome, NamesGzip, RulesOut, Coding;
    ContainsInPiece(header, ',', "gzip");
  }

  /**
   So for a header in which just the elements that name gzip contain "gzip": gzip is sent unwanted exactly if it is
   listed with weight 0 only, and withheld exactly if "*" alone stands for it.
   */
  lemma PlainHeaderExactlyWhen(header: string)
    requires forall i :: 0 <= i < |HeaderElements(header)| ==>
               (Contains(HeaderElements(header)[i], "gzip") <==> NamesGzip(HeaderElements(header)[i]))
    ensures SentUnwanted(header) <==> ListsGzip(header) && !WantsGzip(header)
    ensures Withheld(header) <==> !ListsGzip(header) && WantsAny(header)
  {
    hide Contains, NamesGzip, RulesOut, Coding, SentUnwanted, Withheld;
    GzipTestExactlyWhen(header);
  }

  lemma RefusalParts()
    ensures SplitOn("gzip;q=0", ';') == ["gzip", "q=0"]
  {
    SplitPiece("gzip", "q=0", ';');
    SplitPiece("q=0", "", ';');
    assert "gzip;q=0" == "gzip" + [';'] + "q=0";
  }

  lemma GzipIsRefused()
    ensures NamesGzip("gzip;q=0") && RulesOut("gzip;q=0")
  {
    hide SplitOn;
    RefusalParts();
    assert SplitOn("gzip;q=0", ';')[1] == "q=0";
    assert Trim("gzip") == "gzip" && Trim("q=0") == "q=0";
    hide Trim;
    assert Lower("gzip") == "gzip";
    assert IsZeroWeight("q=0");
  }

  /** Both happen: "gzip;q=0" gets gzip, ... */
  lemma RefusalGetsGzip()
    ensures SentUnwanted("gzip;q=0")
  {
    var refusal := "gzip;q=0";
    GzipIsRefused();
    hide NamesGzip, RulesOut;
    assert HeaderElements(refusal) == [refusal] by {
      SplitPiece(refusal, "", ',');
    }
    hide HeaderElements;
    assert HeaderElements(refusal)[0] == refusal;
  }

  /** ... and "*" does not. */
  lemma WildcardGetsNoGzip()
    ensures Withheld("*")
  {
    assert SplitOn("*", ',') == ["*"] && SplitOn("*", ';') == ["*"] by {
      SplitPiece("*", "", ',');
      SplitPiece("*", "", ';');
    }
    hide SplitOn;
    assert HeaderElements("*")[0] == "*";
  }
}
