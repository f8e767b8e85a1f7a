/**
 * The e-mail test both Customer classes carry (`checkEmail`): split on '@'
 * must give exactly two pieces, the second split on '.' at least two, and
 * the last of those must consist of letters. Because `split` drops trailing
 * empty pieces, the test is looser than it reads; `CheckEmailShape` states
 * exactly which strings pass.
 */
module Email {
  import opened Text

  /** checkEmail, step by step as the source does it. */
  predicate CheckEmail(email: string)
  {
    var atParts := Split(email, '@');
    if |atParts| != 2 then false
    else
      var dotParts := Split(atParts[1], '.');
      if |dotParts| < 2 then false
      else AllLetters(dotParts[|dotParts| - 1])
  }

  /**
   * The accepted strings, described without `split`: once any trailing '@'
   * are removed exactly one '@' is left; in what follows it, once any
   * trailing '.' are removed, a '.' is left, and the text after the last '.'
   * is letters only. The part before the '@' may be empty or hold anything
   * but '@'.
   */
  predicate WellFormedEmail(email: string)
  {
    var body := StripTrailing(email, '@');
    && Count(body, '@') == 1
    && var domain := StripTrailing(AfterLast(body, '@'), '.');
       && Count(domain, '.') >= 1
       && AllLetters(AfterLast(domain, '.'))
  }

  /** How many pieces Split yields, and what the last one is. */
  lemma SplitFacts(s: string, sep: char)
    ensures var t := StripTrailing(s, sep);
      && |Split(s, sep)| == (if sep !in s then 1 else if t == [] then 0 else Count(t, sep) + 1)
      && (sep in s && |Split(s, sep)| >= 1 ==> Split(s, sep)[|Split(s, sep)| - 1] == AfterLast(t, sep))
  {
    if sep in s {
      var t := StripTrailing(s, sep);
      SplitShape(s, sep);
      if t != [] {
        SplitAllJoin(t, sep);
        LastPieceIsAfterLast(t, sep);
      }
    }
  }

  /** Without the separator, stripping leaves s and there is nothing to count. */
  lemma NoSeparator(s: string, sep: char)
    requires sep !in s
    ensures StripTrailing(s, sep) == s && Count(s, sep) == 0
  {
    CountZero(s, sep);
  }

  /** checkEmail accepts exactly the well-formed strings. */
  lemma CheckEmailShape(email: string)
    ensures CheckEmail(email) <==> WellFormedEmail(email)
  {
    var body := StripTrailing(email, '@');
    var atParts := Split(email, '@');
    assert |atParts| == 2 <==> Count(body, '@') == 1 by {
      SplitFacts(email, '@');
      if '@' !in email {
        NoSeparator(email, '@');
      } else if body == [] {
        CountZero(body, '@');
      }
    }
    if |atParts| == 2 {
      var d := atParts[1];
      assert d == AfterLast(body, '@') by {
        SplitFacts(email, '@');
      }
      var dotParts := Split(d, '.');
      var domain := StripTrailing(d, '.');
      DomainShape(d);
      assert CheckEmail(email) <==> |dotParts| >= 2 && AllLetters(dotParts[|dotParts| - 1]);
      assert WellFormedEmail(email) <==> Count(domain, '.') >= 1 && AllLetters(AfterLast(domain, '.'));
    } else {
      assert !CheckEmail(email) && !WellFormedEmail(email);
    }
  }

  /** The domain half of the check: split on '.', at least two pieces, the last all letters. */
  lemma DomainShape(d: string)
    ensures var dotParts := Split(d, '.');
      var domain := StripTrailing(d, '.');
      (|dotParts| >= 2 && AllLetters(dotParts[|dotParts| - 1]))
        <==> (Count(domain, '.') >= 1 && AllLetters(AfterLast(domain, '.')))
  {
    var domain := StripTrailing(d, '.');
    SplitFacts(d, '.');
    if '.' !in d {
      NoSeparator(d, '.');
    } else if domain == [] {
      CountZero(domain, '.');
    }
  }

  /**
   * Any local part and host without '@', followed by a non-empty
   * all-letter top-level domain, passes; the local part and the host may
   * be empty, and the host may itself hold dots.
   */
  lemma AcceptsLocalAtHostDotTld(local: string, host: string, tld: string)
    requires '@' !in local && '@' !in host
    requires tld != [] && AllLetters(tld)
    ensures CheckEmail(local + "@" + host + "." + tld)
  {
    var domain := host + ['.'] + tld;
    var email := local + ['@'] + domain;
    assert email == local + "@" + host + "." + tld;
    WellFormedParts(local, host, tld);
    CheckEmailShape(email);
  }

  /** A string without '@' fails. */
  lemma RejectsWithoutAt(email: string)
    requires '@' !in email
    ensures !CheckEmail(email)
  {
    NoSeparator(email, '@');
    CheckEmailShape(email);
  }

  /** One '@' followed by a non-empty host without '.' fails. */
  lemma RejectsHostWithoutDot(local: string, host: string)
    requires '@' !in local && '@' !in host && '.' !in host && host != []
    ensures !CheckEmail(local + "@" + host)
  {
    var email := local + ['@'] + host;
    assert email == local + "@" + host;
    NoSeparator(local, '@');
    SeparatorThenTail(local, host, '@');
    NoSeparator(host, '.');
    CheckEmailShape(email);
  }

  lemma WellFormedParts(local: string, host: string, tld: string)
    requires '@' !in local && '@' !in host
    requires tld != [] && AllLetters(tld)
    ensures WellFormedEmail(local + ['@'] + (host + ['.'] + tld))
  {
    var domain := host + ['.'] + tld;
    assert '.' !in tld && '@' !in tld by {
      assert forall k :: 0 <= k < |tld| ==> IsLetter(tld[k]);
    }
    assert '@' !in domain;
    NoSeparator(local, '@');
    SeparatorThenTail(local, domain, '@');
    SeparatorThenTail(host, tld, '.');
  }

  /** a, one separator, then a non-empty tail b without it. */
  lemma SeparatorThenTail(a: string, b: string, sep: char)
    requires sep !in b && b != []
    ensures StripTrailing(a + [sep] + b, sep) == a + [sep] + b
    ensures Count(a + [sep] + b, sep) == Count(a, sep) + 1
    ensures AfterLast(a + [sep] + b, sep) == b
  {
    var s := a + [sep] + b;
    assert s[|s| - 1] == b[|b| - 1];
    StripNothing(s, sep);
    NoSeparator(b, sep);
    CountAppend(a, b, sep);
    AfterLastAppend(a, b, sep);
  }
}
