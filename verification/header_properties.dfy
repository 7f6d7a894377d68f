/**
 What the header validator promises: where each error comes from, the
 order errors appear in, when the check passes, and which inputs cannot
 change the outcome.
 */
module HeaderProperties {
  import Lex
  import Sorting
  import opened Header

  // ---------------------------------------------------------------------
  // The expected-header phase

  /** Every error of the expected phase is owed by one of the headers checked. */
  lemma {:induction false} ExpectedErrorsSound(actual: Headers, headers: seq<HttpHeader>)
    ensures forall e :: e in ExpectedErrors(actual, headers) ==>
              exists h :: h in headers && Explains(actual, h, e)
    decreases |headers|
  {
    if |headers| > 0 {
      ExpectedErrorsSound(actual, headers[1..]);
      var check := CheckExpected(actual, headers[0]);
      var rest := ExpectedErrors(actual, headers[1..]);
      forall e | e in check + rest
        ensures exists h :: h in headers && Explains(actual, h, e)
      {
        if e in check {
          assert headers[0] in headers;
        } else {
          var h :| h in headers[1..] && Explains(actual, h, e);
          assert h in headers;
        }
      }
    }
  }

  /** Every header that is not carried gets its error. */
  lemma {:induction false} ExpectedErrorsComplete(actual: Headers, headers: seq<HttpHeader>)
    ensures forall h :: h in headers && !Carries(actual, h) ==>
              exists e :: e in ExpectedErrors(actual, headers) && Explains(actual, h, e)
    decreases |headers|
  {
    if |headers| > 0 {
      ExpectedErrorsComplete(actual, headers[1..]);
      var check := CheckExpected(actual, headers[0]);
      var rest := ExpectedErrors(actual, headers[1..]);
      assert ExpectedErrors(actual, headers) == check + rest;
      forall h | h in headers && !Carries(actual, h)
        ensures exists e :: e in check + rest && Explains(actual, h, e)
      {
        if h == headers[0] {
          assert check[0] in check + rest;
        } else {
          assert h in headers[1..];
          var e :| e in rest && Explains(actual, h, e);
          assert e in check + rest;
        }
      }
    }
  }

  /** The expected phase adds nothing exactly when every header is carried. */
  lemma {:induction false} ExpectedErrorsEmptyIff(actual: Headers, headers: seq<HttpHeader>)
    ensures ExpectedErrors(actual, headers) == [] <==> forall h :: h in headers ==> Carries(actual, h)
    decreases |headers|
  {
    if |headers| > 0 {
      ExpectedErrorsEmptyIff(actual, headers[1..]);
      assert headers == [headers[0]] + headers[1..];
      assert forall h :: h in headers <==> h == headers[0] || h in headers[1..];
    }
  }

  /** Checking sorted, distinct-named headers yields errors in strictly ascending name order. */
  lemma {:induction false} ExpectedErrorsAscending(actual: Headers, headers: seq<HttpHeader>)
    requires Sorting.SortedBy(headers, NameOf) && DistinctNames(headers)
    ensures NamesStrictlyAscending(ExpectedErrors(actual, headers))
    decreases |headers|
  {
    if |headers| > 0 {
      var tail := headers[1..];
      Sorting.SortedTail(headers, NameOf);
      assert DistinctNames(tail) by {
        forall i, j | 0 <= i < j < |tail|
          ensures NameOf(tail[i]) != NameOf(tail[j])
        {
          assert NameOf(headers[i + 1]) != NameOf(headers[j + 1]);
        }
      }
      ExpectedErrorsAscending(actual, tail);
      ExpectedErrorsSound(actual, tail);
      var check := CheckExpected(actual, headers[0]);
      var rest := ExpectedErrors(actual, tail);
      forall e | e in rest
        ensures Lex.Lt(headers[0].name, e.name)
      {
        var h :| h in tail && Explains(actual, h, e);
        var k :| 0 <= k < |tail| && tail[k] == h;
        assert Lex.Le(NameOf(headers[0]), NameOf(headers[k + 1]));
        assert NameOf(headers[0]) != NameOf(headers[k + 1]);
      }
      var r := check + rest;
      assert r == ExpectedErrors(actual, headers);
      forall i, j | 0 <= i < j < |r|
        ensures Lex.Lt(r[i].name, r[j].name)
      {
        if i >= |check| {
          assert r[i] == rest[i - |check|] && r[j] == rest[j - |check|];
        } else {
          assert r[i] in check && r[j] == rest[j - |check|];
          assert Explains(actual, headers[0], r[i]);
          assert r[i].name == headers[0].name;
          assert r[j] in rest;
          assert Lex.Lt(headers[0].name, r[j].name);
        }
      }
    }
  }

  // ---------------------------------------------------------------------
  // The absent-list phase

  /** Every error of the absent phase names a listed header that was received. */
  lemma {:induction false} AbsentErrorsSound(actual: Headers, names: seq<string>)
    ensures forall e :: e in AbsentErrors(actual, names) ==>
              e.UnexpectedPresent? && e.name in actual && e.name in names
    decreases |names|
  {
    if |names| > 0 {
      AbsentErrorsSound(actual, names[1..]);
      assert forall n :: n in names[1..] ==> n in names;
    }
  }

  /** Each listed name, duplicates included, yields one error exactly when it was received. */
  lemma {:induction false} AbsentErrorsCount(actual: Headers, names: seq<string>)
    ensures forall n :: multiset(AbsentErrors(actual, names))[UnexpectedPresent(n)] ==
              if n in actual then multiset(names)[n] else 0
    decreases |names|
  {
    if |names| > 0 {
      AbsentErrorsCount(actual, names[1..]);
      assert names == [names[0]] + names[1..];
      assert multiset(names) == multiset{names[0]} + multiset(names[1..]);
      var head := if names[0] in actual then [UnexpectedPresent(names[0])] else [];
      var rest := AbsentErrors(actual, names[1..]);
      assert multiset(head + rest) == multiset(head) + multiset(rest);
    }
  }

  /** A sorted absent-list yields its errors in ascending name order. */
  lemma {:induction false} AbsentErrorsAscending(actual: Headers, names: seq<string>)
    requires Sorting.SortedBy(names, Identity)
    ensures NamesAscending(AbsentErrors(actual, names))
    decreases |names|
  {
    if |names| > 0 {
      var tail := names[1..];
      Sorting.SortedTail(names, Identity);
      AbsentErrorsAscending(actual, tail);
      AbsentErrorsSound(actual, tail);
      var head := if names[0] in actual then [UnexpectedPresent(names[0])] else [];
      var rest := AbsentErrors(actual, tail);
      forall e | e in rest
        ensures Lex.Le(names[0], e.name)
      {
        var k :| 0 <= k < |tail| && tail[k] == e.name;
        assert Lex.Le(Identity(names[0]), Identity(names[k + 1]));
      }
      var r := head + rest;
      assert r == AbsentErrors(actual, names);
      forall i, j | 0 <= i < j < |r|
        ensures Lex.Le(r[i].name, r[j].name)
      {
        if i >= |head| {
          assert r[i] == rest[i - |head|] && r[j] == rest[j - |head|];
        } else {
          assert r[i] == UnexpectedPresent(names[0]);
          assert r[j] == rest[j - |head|];
          assert r[j] in rest;
        }
      }
    }
  }

  /** The absent phase adds nothing exactly when no listed name was received. */
  lemma {:induction false} AbsentErrorsEmptyIff(actual: Headers, names: seq<string>)
    ensures AbsentErrors(actual, names) == [] <==> forall n :: n in names ==> n !in actual
    decreases |names|
  {
    if |names| > 0 {
      AbsentErrorsEmptyIff(actual, names[1..]);
      assert names == [names[0]] + names[1..];
      assert forall n :: n in names <==> n == names[0] || n in names[1..];
    }
  }

  // ---------------------------------------------------------------------
  // The whole validation

  /** The errors a call appends: the expected phase over the sorted headers, then the sorted absent-list. */
  lemma AddedErrors(errors: seq<HeaderError>, actual: Headers, expected: seq<HttpHeader>, unexpected: seq<string>)
    ensures ValidateRequestHeaders(errors, actual, expected, unexpected).errors[|errors|..] ==
              ExpectedErrors(actual, Sorting.SortBy(expected, NameOf))
              + AbsentErrors(actual, Sorting.SortBy(unexpected, Identity))
  {
  }

  /** Every appended error comes from one of the three kinds of check. */
  lemma ValidateProvenance(errors: seq<HeaderError>, actual: Headers, expected: seq<HttpHeader>, unexpected: seq<string>)
    ensures var added := ValidateRequestHeaders(errors, actual, expected, unexpected).errors[|errors|..];
            forall e :: e in added ==>
              || (exists h :: h in expected && Explains(actual, h, e))
              || (e.UnexpectedPresent? && e.name in actual && e.name in unexpected)
  {
    var headers := Sorting.SortBy(expected, NameOf);
    var absent := Sorting.SortBy(unexpected, Identity);
    Sorting.SortedByMembers(expected, headers);
    Sorting.SortedByMembers(unexpected, absent);
    ExpectedErrorsSound(actual, headers);
    AbsentErrorsSound(actual, absent);
    AddedErrors(errors, actual, expected, unexpected);
    forall e | e in ExpectedErrors(actual, headers) + AbsentErrors(actual, absent)
      ensures || (exists h :: h in expected && Explains(actual, h, e))
              || (e.UnexpectedPresent? && e.name in actual && e.name in unexpected)
    {
      if e in ExpectedErrors(actual, headers) {
        var h :| h in headers && Explains(actual, h, e);
        assert h in expected;
      }
    }
  }

  /** No expected-phase error is an absent-list error. */
  lemma ExpectedErrorsKinds(actual: Headers, headers: seq<HttpHeader>)
    ensures forall e :: e in ExpectedErrors(actual, headers) ==> !e.UnexpectedPresent?
  {
    ExpectedErrorsSound(actual, headers);
  }

  lemma PhaseOrder(errors: seq<HeaderError>, first: seq<HeaderError>, second: seq<HeaderError>)
    requires forall e :: e in first ==> !e.UnexpectedPresent?
    requires forall e :: e in second ==> e.UnexpectedPresent?
    requires NamesAscending(second)
    ensures var all := errors + first + second;
            forall i, j :: |errors| <= i < j < |all| && all[i].UnexpectedPresent? ==>
              all[j].UnexpectedPresent? && Lex.Le(all[i].name, all[j].name)
    ensures var all := errors + first + second;
            NamesStrictlyAscending(first) ==>
              forall i, j :: |errors| <= i < j < |all| && !all[j].UnexpectedPresent? ==>
                Lex.Lt(all[i].name, all[j].name)
  {
    var all := errors + first + second;
    var base := |errors| + |first|;
    forall k | |errors| <= k < base
      ensures !all[k].UnexpectedPresent?
    {
      assert all[k] == first[k - |errors|];
      assert all[k] in first;
    }
    forall i, j | |errors| <= i < j < |all| && all[i].UnexpectedPresent?
      ensures all[j].UnexpectedPresent? && Lex.Le(all[i].name, all[j].name)
    {
      assert i >= base;
      assert all[i] == second[i - base] && all[j] == second[j - base];
      assert all[j] in second;
    }
    forall k | base <= k < |all|
      ensures all[k].UnexpectedPresent?
    {
      assert all[k] == second[k - base];
      assert all[k] in second;
    }
    forall i, j | |errors| <= i < j < |all| && !all[j].UnexpectedPresent? && NamesStrictlyAscending(first)
      ensures Lex.Lt(all[i].name, all[j].name)
    {
      assert j < base;
      assert all[i] == first[i - |errors|] && all[j] == first[j - |errors|];
    }
  }

  /** Expected-header errors precede all absent-list errors, and the latter ascend by name. */
  lemma ValidatePhases(errors: seq<HeaderError>, actual: Headers, expected: seq<HttpHeader>, unexpected: seq<string>)
    ensures var r := ValidateRequestHeaders(errors, actual, expected, unexpected);
            forall i, j :: |errors| <= i < j < |r.errors| && r.errors[i].UnexpectedPresent? ==>
              r.errors[j].UnexpectedPresent? && Lex.Le(r.errors[i].name, r.errors[j].name)
  {
    var headers := Sorting.SortBy(expected, NameOf);
    var absent := Sorting.SortBy(unexpected, Identity);
    ExpectedErrorsKinds(actual, headers);
    AbsentErrorsSound(actual, absent);
    AbsentErrorsAscending(actual, absent);
    PhaseOrder(errors, ExpectedErrors(actual, headers), AbsentErrors(actual, absent));
  }

  /** With distinct expected names, the expected-phase errors strictly ascend by name: at most one per header. */
  lemma ValidateExpectedAscending(errors: seq<HeaderError>, actual: Headers, expected: seq<HttpHeader>, unexpected: seq<string>)
    requires DistinctNames(expected)
    ensures var r := ValidateRequestHeaders(errors, actual, expected, unexpected);
            forall i, j :: |errors| <= i < j < |r.errors| && !r.errors[j].UnexpectedPresent? ==>
              Lex.Lt(r.errors[i].name, r.errors[j].name)
  {
    var headers := Sorting.SortBy(expected, NameOf);
    var absent := Sorting.SortBy(unexpected, Identity);
    Sorting.DistinctKeysPermutation(expected, headers, NameOf);
    ExpectedErrorsAscending(actual, headers);
    ExpectedErrorsKinds(actual, headers);
    AbsentErrorsSound(actual, absent);
    AbsentErrorsAscending(actual, absent);
    PhaseOrder(errors, ExpectedErrors(actual, headers), AbsentErrors(actual, absent));
  }

  /**
   An expected header is reported missing exactly when no header of its name
   was received, and reported as a mismatch exactly when the first raw line
   received under its name differs from its value.
   */
  lemma ValidateExpectedVerdict(errors: seq<HeaderError>, actual: Headers, expected: seq<HttpHeader>,
                                unexpected: seq<string>, header: HttpHeader)
    requires header in expected
    ensures var added := ValidateRequestHeaders(errors, actual, expected, unexpected).errors[|errors|..];
            && (Missing(header.name) in added <==> header.name !in actual)
            && (header.name in actual ==>
                  (ValueMismatch(header.name, header.value, actual[header.name][0]) in added
                   <==> actual[header.name][0] != header.value))
  {
    var headers := Sorting.SortBy(expected, NameOf);
    var absent := Sorting.SortBy(unexpected, Identity);
    var first := ExpectedErrors(actual, headers);
    var second := AbsentErrors(actual, absent);
    Sorting.SortedByMembers(expected, headers);
    ExpectedErrorsSound(actual, headers);
    ExpectedErrorsComplete(actual, headers);
    AbsentErrorsSound(actual, absent);
    AddedErrors(errors, actual, expected, unexpected);
    var added := first + second;
    assert header in headers;
    if Missing(header.name) in added {
      assert Missing(header.name) in first;
      var h :| h in headers && Explains(actual, h, Missing(header.name));
    }
    if header.name !in actual {
      var e :| e in first && Explains(actual, header, e);
      assert e in added;
    }
    if header.name in actual {
      var mismatch := ValueMismatch(header.name, header.value, actual[header.name][0]);
      if mismatch in added {
        assert mismatch in first;
        var h :| h in headers && Explains(actual, h, mismatch);
      }
      if actual[header.name][0] != header.value {
        var e :| e in first && Explains(actual, header, e);
        assert e in added;
      }
    }
  }

  /** When names identify headers, a header is carried exactly when no expected-phase error names it. */
  lemma ExpectedErrorsSilent(actual: Headers, headers: seq<HttpHeader>, header: HttpHeader)
    requires Sorting.KeyInjective(headers, NameOf) && header in headers
    ensures Carries(actual, header) <==> forall e :: e in ExpectedErrors(actual, headers) ==> e.name != header.name
  {
    var first := ExpectedErrors(actual, headers);
    ExpectedErrorsSound(actual, headers);
    ExpectedErrorsComplete(actual, headers);
    if Carries(actual, header) {
      forall e | e in first
        ensures e.name != header.name
      {
        var h :| h in headers && Explains(actual, h, e);
        assert h != header;
        assert NameOf(h) != NameOf(header);
      }
    } else {
      var e :| e in first && Explains(actual, header, e);
      assert e.name == header.name;
    }
  }

  /** With distinct expected names, a carried header is never named by an expected-phase error, and only then. */
  lemma CarriedHeaderSilent(errors: seq<HeaderError>, actual: Headers, expected: seq<HttpHeader>,
                            unexpected: seq<string>, header: HttpHeader)
    requires DistinctNames(expected) && header in expected
    ensures var added := ValidateRequestHeaders(errors, actual, expected, unexpected).errors[|errors|..];
            Carries(actual, header) <==>
              forall e :: e in added && !e.UnexpectedPresent? ==> e.name != header.name
  {
    var headers := Sorting.SortBy(expected, NameOf);
    var absent := Sorting.SortBy(unexpected, Identity);
    var first := ExpectedErrors(actual, headers);
    var second := AbsentErrors(actual, absent);
    Sorting.SortedByMembers(expected, headers);
    Sorting.DistinctKeysPermutation(expected, headers, NameOf);
    Sorting.DistinctKeysInjective(headers, NameOf);
    ExpectedErrorsKinds(actual, headers);
    AbsentErrorsSound(actual, absent);
    AddedErrors(errors, actual, expected, unexpected);
    ExpectedErrorsSilent(actual, headers, header);
    assert forall e: HeaderError :: e in first + second && !e.UnexpectedPresent? <==> e in first;
  }

  /**
   Each entry of the absent-list, duplicates included, yields one "is
   present" error exactly when that name was received.
   */
  lemma AbsentListVerdict(errors: seq<HeaderError>, actual: Headers, expected: seq<HttpHeader>,
                          unexpected: seq<string>, name: string)
    ensures var added := ValidateRequestHeaders(errors, actual, expected, unexpected).errors[|errors|..];
            multiset(added)[UnexpectedPresent(name)] == if name in actual then multiset(unexpected)[name] else 0
  {
    var headers := Sorting.SortBy(expected, NameOf);
    var absent := Sorting.SortBy(unexpected, Identity);
    var first := ExpectedErrors(actual, headers);
    var second := AbsentErrors(actual, absent);
    ExpectedErrorsKinds(actual, headers);
    AbsentErrorsCount(actual, absent);
    AddedErrors(errors, actual, expected, unexpected);
    assert multiset(first + second) == multiset(first) + multiset(second);
    assert UnexpectedPresent(name) !in first;
  }

  /**
   A call appends nothing exactly when every expected header is carried and
   no listed absent name was received.
   */
  lemma ValidatePassIff(errors: seq<HeaderError>, actual: Headers, expected: seq<HttpHeader>, unexpected: seq<string>)
    ensures ValidateRequestHeaders(errors, actual, expected, unexpected).errors == errors <==>
              && (forall h :: h in expected ==> Carries(actual, h))
              && (forall n :: n in unexpected ==> n !in actual)
  {
    var r := ValidateRequestHeaders(errors, actual, expected, unexpected);
    var headers := Sorting.SortBy(expected, NameOf);
    var absent := Sorting.SortBy(unexpected, Identity);
    Sorting.SortedByMembers(expected, headers);
    Sorting.SortedByMembers(unexpected, absent);
    ExpectedErrorsEmptyIff(actual, headers);
    AbsentErrorsEmptyIff(actual, absent);
    AddedErrors(errors, actual, expected, unexpected);
    assert r.errors == errors + r.errors[|errors|..];
  }

  /**
   The outcome does not depend on the order the expected headers or the
   absent-list arrive in: any rearrangement gives the same errors and the
   same sorted absent-list.
   */
  lemma ValidateOrderIndependent(errors: seq<HeaderError>, actual: Headers,
                                 expected: seq<HttpHeader>, expected': seq<HttpHeader>,
                                 unexpected: seq<string>, unexpected': seq<string>)
    requires DistinctNames(expected) && multiset(expected) == multiset(expected')
    requires multiset(unexpected) == multiset(unexpected')
    ensures ValidateRequestHeaders(errors, actual, expected, unexpected) ==
            ValidateRequestHeaders(errors, actual, expected', unexpected')
  {
    var headers := Sorting.SortBy(expected, NameOf);
    var headers' := Sorting.SortBy(expected', NameOf);
    Sorting.DistinctKeysPermutation(expected, headers, NameOf);
    Sorting.DistinctKeysInjective(headers, NameOf);
    Sorting.SortedUnique(headers, headers', NameOf);
    var absent := Sorting.SortBy(unexpected, Identity);
    var absent' := Sorting.SortBy(unexpected', Identity);
    Sorting.SortedUnique(absent, absent', Identity);
  }

  /**
   Feeding the sorted absent-list back in changes nothing: sorting it again
   leaves it as it is, and the errors are the same.
   */
  lemma ResortingChangesNothing(errors: seq<HeaderError>, actual: Headers,
                                expected: seq<HttpHeader>, unexpected: seq<string>)
    ensures var r := ValidateRequestHeaders(errors, actual, expected, unexpected);
            ValidateRequestHeaders(errors, actual, expected, r.unexpected) == r
  {
    var absent := Sorting.SortBy(unexpected, Identity);
    Sorting.SortedUnique(Sorting.SortBy(absent, Identity), absent, Identity);
  }

  /** Two received collections agree on `name`: both lack it, or both have it with the same first raw line. */
  predicate AgreeOn(actual: Headers, actual': Headers, name: string)
  {
    && (name in actual <==> name in actual')
    && (name in actual ==> actual[name][0] == actual'[name][0])
  }

  lemma {:induction false} ExpectedErrorsAgree(actual: Headers, actual': Headers, headers: seq<HttpHeader>)
    requires forall h :: h in headers ==> AgreeOn(actual, actual', h.name)
    ensures ExpectedErrors(actual, headers) == ExpectedErrors(actual', headers)
    decreases |headers|
  {
    if |headers| > 0 {
      assert headers[0] in headers;
      assert forall h :: h in headers[1..] ==> h in headers;
      ExpectedErrorsAgree(actual, actual', headers[1..]);
    }
  }

  lemma {:induction false} AbsentErrorsAgree(actual: Headers, actual': Headers, names: seq<string>)
    requires forall n :: n in names ==> (n in actual <==> n in actual')
    ensures AbsentErrors(actual, names) == AbsentErrors(actual', names)
    decreases |names|
  {
    if |names| > 0 {
      assert names[0] in names;
      assert forall n :: n in names[1..] ==> n in names;
      AbsentErrorsAgree(actual, actual', names[1..]);
    }
  }

  /**
   The outcome depends on the received headers only through the names the
   call mentions: for an expected name, whether it is present and its first
   raw line; for an absent-listed name, whether it is present.
   */
  lemma ValidateDependsOnMentionedOnly(errors: seq<HeaderError>, actual: Headers, actual': Headers,
                                       expected: seq<HttpHeader>, unexpected: seq<string>)
    requires forall h :: h in expected ==> AgreeOn(actual, actual', h.name)
    requires forall n :: n in unexpected ==> (n in actual <==> n in actual')
    ensures ValidateRequestHeaders(errors, actual, expected, unexpected) ==
            ValidateRequestHeaders(errors, actual', expected, unexpected)
  {
    var headers := Sorting.SortBy(expected, NameOf);
    var absent := Sorting.SortBy(unexpected, Identity);
    Sorting.SortedByMembers(expected, headers);
    Sorting.SortedByMembers(unexpected, absent);
    ExpectedErrorsAgree(actual, actual', headers);
    AbsentErrorsAgree(actual, actual', absent);
  }

  /** Raw lines after the first one received under a name take no part in the comparison. */
  lemma OnlyFirstLineCompared(errors: seq<HeaderError>, actual: Headers, expected: seq<HttpHeader>,
                              unexpected: seq<string>, name: string, later: seq<seq<byte>>)
    requires name in actual
    ensures ValidateRequestHeaders(errors, actual[name := [actual[name][0]] + later], expected, unexpected) ==
            ValidateRequestHeaders(errors, actual, expected, unexpected)
  {
    var actual' := actual[name := [actual[name][0]] + later];
    assert forall n :: AgreeOn(actual', actual, n);
    ValidateDependsOnMentionedOnly(errors, actual', actual, expected, unexpected);
  }

  /** A received header that neither set names never causes an error, whatever its value, and so does its absence. */
  lemma UnmentionedIgnored(errors: seq<HeaderError>, actual: Headers, expected: seq<HttpHeader>,
                           unexpected: seq<string>, name: string, raw: RawValues)
    requires forall h :: h in expected ==> h.name != name
    requires name !in unexpected
    ensures ValidateRequestHeaders(errors, actual[name := raw], expected, unexpected) ==
            ValidateRequestHeaders(errors, actual, expected, unexpected)
    ensures ValidateRequestHeaders(errors, actual - {name}, expected, unexpected) ==
            ValidateRequestHeaders(errors, actual, expected, unexpected)
  {
    ValidateDependsOnMentionedOnly(errors, actual[name := raw], actual, expected, unexpected);
    ValidateDependsOnMentionedOnly(errors, actual - {name}, actual, expected, unexpected);
  }

  /** Two expected headers given out of order and both missing are reported in name order. */
  lemma MissingReportedInNameOrder()
    ensures ValidateRequestHeaders([], map[], [HttpHeader("B", [50]), HttpHeader("A", [49])], []).errors ==
            [Missing("A"), Missing("B")]
  {
    var a := HttpHeader("A", [49]);
    var b := HttpHeader("B", [50]);
    assert !Lex.Le("B", "A");
    assert [b, a][1..] == [a];
    assert Sorting.SortBy([a], NameOf) == [a];
    assert Sorting.Insert(b, [a], NameOf) == [a, b];
    assert Sorting.SortBy([b, a], NameOf) == [a, b];
    assert ExpectedErrors(map[], [a, b]) == [Missing("A"), Missing("B")];
  }
}
