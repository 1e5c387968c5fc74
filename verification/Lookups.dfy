/** What the lookups in a list of fields mean, said of the fields themselves. */
module Lookups {
  import opened Bytes
  import opened Head

  /** `v` is the value of one of the fields of that name. */
  predicate Given(hs: Headers, name: bytes, v: bytes) { Field(name, v) in hs }

  lemma {:induction false} ValuesAreGiven(hs: Headers, name: bytes, v: bytes)
    ensures v in Values(hs, name) <==> Given(hs, name, v)
  {
    if hs != [] {
      ValuesAreGiven(hs[1..], name, v);
      assert hs == [hs[0]] + hs[1..];
    }
  }

  /** `list[lo..hi]` is a member of a comma separated list: it is `token`, with blanks around it. */
  ghost predicate MemberAt(list: bytes, lo: nat, hi: nat, token: bytes)
  {
    && lo <= hi <= |list|
    && (lo == 0 || list[lo - 1] == COMMA) && (hi == |list| || list[hi] == COMMA)
    && COMMA !in list[lo..hi] && Padded(list[lo..hi], token)
  }

  ghost predicate Lists(list: bytes, token: bytes)
  {
    exists lo: nat, hi: nat :: MemberAt(list, lo, hi, token)
  }

  lemma FirstMember(list: bytes, token: bytes)
    requires Trimmed(token)
    ensures var i := IndexOf(list, COMMA);
            Trim(list[..i]) == token <==> MemberAt(list, 0, i, token)
  {
    var i := IndexOf(list, COMMA);
    assert list[0..i] == list[..i];
    TrimIsPadded(list[..i], token);
  }

  lemma LaterMember(list: bytes, i: nat, lo: nat, hi: nat, token: bytes)
    requires i < |list| && list[i] == COMMA && lo <= hi
    ensures MemberAt(list[i + 1..], lo, hi, token) <==> MemberAt(list, i + 1 + lo, i + 1 + hi, token)
  {
    if hi <= |list[i + 1..]| {
      assert list[i + 1..][lo..hi] == list[i + 1 + lo..i + 1 + hi];
    }
  }

  /** The members of a list: the part in front of the first comma, and the members behind it. */
  lemma ListsStep(list: bytes, token: bytes)
    ensures var i := IndexOf(list, COMMA);
            Lists(list, token) <==> MemberAt(list, 0, i, token) || (i < |list| && Lists(list[i + 1..], token))
  {
    var i := IndexOf(list, COMMA);
    hide MemberAt, Lists;
    if Lists(list, token) { MembersOf(list, i, token); }
    if MemberAt(list, 0, i, token) { IsListed(list, 0, i, token); }
    if i < |list| && Lists(list[i + 1..], token) { LaterIsListed(list, i, token); }
  }

  lemma IsListed(list: bytes, lo: nat, hi: nat, token: bytes)
    requires MemberAt(list, lo, hi, token)
    ensures Lists(list, token)
  {
  }

  lemma MembersOf(list: bytes, i: nat, token: bytes)
    requires i == IndexOf(list, COMMA) && Lists(list, token)
    ensures MemberAt(list, 0, i, token) || (i < |list| && Lists(list[i + 1..], token))
  {
    hide MemberAt;
    var lo: nat, hi: nat :| MemberAt(list, lo, hi, token);
    NoCommaAcross(list, i, lo, hi, token);
    if lo > i { LaterMember(list, i, lo - i - 1, hi - i - 1, token); }
  }

  lemma LaterIsListed(list: bytes, i: nat, token: bytes)
    requires i < |list| && list[i] == COMMA && Lists(list[i + 1..], token)
    ensures Lists(list, token)
  {
    hide MemberAt;
    var lo: nat, hi: nat :| MemberAt(list[i + 1..], lo, hi, token);
    Ordered(list[i + 1..], lo, hi, token);
    LaterMember(list, i, lo, hi, token);
  }

  lemma Ordered(list: bytes, lo: nat, hi: nat, token: bytes)
    requires MemberAt(list, lo, hi, token)
    ensures lo <= hi
  {
  }

  /** The lookup in a list finds exactly its members. */
  lemma {:induction false} ListHasMembers(list: bytes, token: bytes)
    requires Trimmed(token)
    ensures ListHas(list, token) <==> Lists(list, token)
    decreases |list|
  {
    hide MemberAt, Lists;
    var i := IndexOf(list, COMMA);
    FirstMember(list, token);
    ListsStep(list, token);
    if i < |list| { ListHasMembers(list[i + 1..], token); }
  }

  /** A member is the part in front of the first comma, or lies behind it. */
  lemma NoCommaAcross(list: bytes, i: nat, lo: nat, hi: nat, token: bytes)
    requires i == IndexOf(list, COMMA) && MemberAt(list, lo, hi, token)
    ensures lo <= hi && ((lo == 0 && hi == i) || (lo > i && i < |list|))
  {
    hide Padded;
    forall k | lo <= k < hi
      ensures list[k] != COMMA
    {
      assert list[lo..hi][k - lo] == list[k];
    }
  }

  /** Some value of the name lists the token. */
  ghost predicate SaidIn(hs: Headers, name: bytes, token: bytes)
  {
    exists v :: Given(hs, name, v) && Lists(v, token)
  }

  /** A connection option is one that some `connection` field lists. */
  lemma HasOptionMeans(hs: Headers, token: bytes)
    requires Trimmed(token)
    ensures HasOption(hs, token) <==> SaidIn(hs, CONNECTION, token)
  {
    hide Lists, ListHas, Given, Trimmed;
    var vs := Values(hs, CONNECTION);
    if HasOption(hs, token) {
      var i :| 0 <= i < |vs| && ListHas(vs[i], token);
      ListHasMembers(vs[i], token);
      ValuesAreGiven(hs, CONNECTION, vs[i]);
    }
    if SaidIn(hs, CONNECTION, token) {
      var v :| Given(hs, CONNECTION, v) && Lists(v, token);
      ValuesAreGiven(hs, CONNECTION, v);
      ListHasMembers(v, token);
      var i :| 0 <= i < |vs| && vs[i] == v;
    }
  }

  lemma OptionsAreTrimmed()
    ensures Trimmed(CLOSE) && Trimmed(KEEP_ALIVE) && Trimmed(CHUNKED)
  {
  }

  /** A message is chunked if the first member of its first transfer coding says so; and it has no
      coding when no field gives one. */
  lemma CodingMeans(hs: Headers)
    ensures Coding(hs) == None <==> forall v :: !Given(hs, TRANSFER_ENCODING, v)
    ensures var vs := Values(hs, TRANSFER_ENCODING);
            Coding(hs) == Some(true) <==> vs != [] && exists hi :: MemberAt(vs[0], 0, hi, CHUNKED)
  {
    hide MemberAt, Given;
    var vs := Values(hs, TRANSFER_ENCODING);
    OptionsAreTrimmed();
    forall v
      ensures v in vs <==> Given(hs, TRANSFER_ENCODING, v)
    {
      ValuesAreGiven(hs, TRANSFER_ENCODING, v);
    }
    if vs == [] {
      assert forall v :: v !in vs;
    } else {
      assert vs[0] in vs;
      FirstMember(vs[0], CHUNKED);
      if exists hi :: MemberAt(vs[0], 0, hi, CHUNKED) {
        var hi :| MemberAt(vs[0], 0, hi, CHUNKED);
        NoCommaAcross(vs[0], IndexOf(vs[0], COMMA), 0, hi, CHUNKED);
      }
    }
  }

  /** `s` is a decimal numeral of `n`, a 64-bit number. */
  predicate Denotes(s: bytes, n: nat)
  {
    && s != [] && n <= U64_MAX && (forall i :: 0 <= i < |s| ==> 48 <= s[i] <= 57)
    && DecimalSum(s) == n
  }

  function DecimalSum(s: bytes): int
  {
    if s == [] then 0 else 10 * DecimalSum(s[..|s| - 1]) + (s[|s| - 1] as int - 48)
  }

  lemma {:induction false} DecimalValue(s: bytes)
    requires AllDigits(s, 10)
    ensures DecimalSum(s) == Value(s, 10)
  {
    if s != [] { DecimalValue(s[..|s| - 1]); }
  }

  lemma ParseDecimalMeans(s: bytes, n: nat)
    ensures ParseDecimal(s) == Some(n) <==> Denotes(s, n)
  {
    DecimalDigits(s);
    if AllDigits(s, 10) { DecimalValue(s); }
  }

  lemma DecimalDigits(s: bytes)
    ensures AllDigits(s, 10) <==> forall i :: 0 <= i < |s| ==> 48 <= s[i] <= 57
  {
    if AllDigits(s, 10) {
      forall i | 0 <= i < |s| ensures 48 <= s[i] <= 57 { assert IsDigit(s[i], 10); }
    }
  }

  /** A length is declared when there is a field for it and all such fields say the same number. */
  lemma DeclaredMeans(hs: Headers, n: nat)
    ensures DeclaredLength(hs).Absent? <==> forall v :: !Given(hs, CONTENT_LENGTH, v)
    ensures DeclaredLength(hs) == Length(n) <==>
              && (exists v :: Given(hs, CONTENT_LENGTH, v))
              && (forall v :: Given(hs, CONTENT_LENGTH, v) ==> Denotes(v, n))
  {
    hide Given, ParseDecimal, Denotes;
    var vs := Values(hs, CONTENT_LENGTH);
    forall v
      ensures v in vs <==> Given(hs, CONTENT_LENGTH, v)
      ensures ParseDecimal(v) == Some(n) <==> Denotes(v, n)
    {
      ValuesAreGiven(hs, CONTENT_LENGTH, v);
      ParseDecimalMeans(v, n);
    }
    if vs == [] {
      assert forall v :: v !in vs;
    } else {
      assert vs[0] in vs;
      if DeclaredLength(hs) == Length(n) {
        forall v | Given(hs, CONTENT_LENGTH, v) ensures Denotes(v, n) {
          var i :| 0 <= i < |vs| && vs[i] == v;
        }
      }
      if forall v :: Given(hs, CONTENT_LENGTH, v) ==> Denotes(v, n) {
        forall i | 0 <= i < |vs| ensures ParseDecimal(vs[i]) == Some(n) { assert vs[i] in vs; }
      }
    }
  }

  // ----- classes of bytes -----

  /** The bytes of a field name, a method and a coding: letters, digits and fifteen others (section
      5.6.2 of RFC 9110); and those of a value: all but the controls, of which a tab is allowed. */
  lemma ByteClasses(b: byte)
    ensures TokenByte(b) <==>
              48 <= b <= 57 || 65 <= b <= 90 || 97 <= b <= 122 || b in Ascii("!#$%&'*+-.^_`|~")
    ensures ValueByte(b) <==> b == HT || !(b < 32 || b == 127)
  {
    var others := Ascii("!#$%&'*+-.^_`|~");
    assert others == [33, 35, 36, 37, 38, 39, 42, 43, 45, 46, 94, 95, 96, 124, 126];
  }

  lemma VersionLetters()
    ensures VersionText(Http11) == Ascii("HTTP/1.1") && VersionText(Http10) == Ascii("HTTP/1.0")
  {
  }
}
