/** Address generation for signups: Gmail "dot trick" variations of one real
    mailbox, a throwaway-address fallback, and the acceptance test for the
    six-digit verification code typed by the operator. Every random draw is a
    parameter; the preconditions on draws state the ranges the draws come from. */
module MailGenerator {
  import opened Basics

  const GmailSuffix := "@gmail.com"
  const MaxDots := 3

  const Adjectives: seq<string> := ["quick", "fast", "smart", "clever", "bright", "sharp", "wise", "bold"]
  const Nouns: seq<string> := ["fox", "wolf", "bear", "eagle", "hawk", "lion", "tiger", "owl"]
  const TempDomains: seq<string> :=
    ["tempmail.com", "10minutemail.net", "mailinator.com", "guerrillamail.com", "yopmail.com"]

  /** What random.randint(1, b) raises for b < 1. */
  const EmptyRangeError := "empty range for randrange"

  function Min(a: int, b: int): int { if a <= b then a else b }

  /** The sort key of a list of integers. */
  function Identity(x: int): int { x }

  predicate IsDigit(c: char) { '0' <= c <= '9' }

  predicate AllDigits(s: string) { forall k :: 0 <= k < |s| ==> IsDigit(s[k]) }

  /** `t in s` for strings: t occurs as a contiguous part of s. */
  function Contains(s: string, t: string): (r: bool)
    ensures r <==> exists i :: 0 <= i <= |s| - |t| && t <= s[i..]
    decreases |s|
  {
    if |s| < |t| then false
    else if t <= s then
      assert t <= s[0..];
      true
    else
      ContainsStep(s, t);
      Contains(s[1..], t)
  }

  lemma ContainsStep(s: string, t: string)
    requires |t| <= |s| && !(t <= s)
    ensures (exists i :: 0 <= i <= |s| - |t| && t <= s[i..]) <==>
            (exists i :: 0 <= i <= |s[1..]| - |t| && t <= s[1..][i..])
  {
    if i :| 0 <= i <= |s| - |t| && t <= s[i..] {
      assert i != 0;
      assert s[1..][i - 1..] == s[i..];
    }
    if i :| 0 <= i <= |s[1..]| - |t| && t <= s[1..][i..] {
      assert s[1..][i..] == s[i + 1..];
    }
  }

  /** `s.split("@")[0]`: the text before the first '@', or all of s. */
  function LocalPart(s: string): (r: string)
    ensures r <= s
    ensures '@' !in r
    ensures r == s || (|r| < |s| && s[|r|] == '@')
  {
    if s == [] || s[0] == '@' then []
    else
      var rest := LocalPart(s[1..]);
      assert s == [s[0]] + s[1..];
      assert rest == s[1..] || s[1..][|rest|] == '@';
      [s[0]] + rest
  }

  // ---------------------------------------------------------------------------
  // Dot insertion

  /** s with a '.' in front of every character whose index (counting from `from`) is in p. */
  function Dotted(s: string, p: set<int>, from: int): string
  {
    if s == [] then []
    else (if from in p then ['.'] else []) + [s[0]] + Dotted(s[1..], p, from + 1)
  }

  /** The inverse of Dotted: drops the character in front of each index in p. */
  function Undotted(r: string, p: set<int>, from: int): string
    decreases |r|
  {
    if r == [] then []
    else if from in p && |r| >= 2 then [r[1]] + Undotted(r[2..], p, from + 1)
    else [r[0]] + Undotted(r[1..], p, from + 1)
  }

  /** s without any '.': the mailbox Gmail delivers to ignores dots in the local part. */
  function StripDots(s: string): (r: string)
    ensures '.' !in r
  {
    if s == [] then [] else (if s[0] == '.' then [] else [s[0]]) + StripDots(s[1..])
  }

  /** Number of indices `from`, ..., `from + n - 1` that are in p. */
  function CountIn(p: set<int>, from: int, n: nat): nat
    decreases n
  {
    if n == 0 then 0 else (if from in p then 1 else 0) + CountIn(p, from + 1, n - 1)
  }

  lemma {:induction false} UndottedDotted(s: string, p: set<int>, from: int)
    ensures Undotted(Dotted(s, p, from), p, from) == s
  {
    if s != [] {
      UndottedDotted(s[1..], p, from + 1);
      var rest := Dotted(s[1..], p, from + 1);
      if from in p {
        assert Dotted(s, p, from) == ['.', s[0]] + rest;
        assert Dotted(s, p, from)[2..] == rest;
      } else {
        assert Dotted(s, p, from) == [s[0]] + rest;
        assert Dotted(s, p, from)[1..] == rest;
      }
    }
  }

  lemma {:induction false} StripDotsDotted(s: string, p: set<int>, from: int)
    ensures StripDots(Dotted(s, p, from)) == StripDots(s)
  {
    if s != [] {
      StripDotsDotted(s[1..], p, from + 1);
      var rest := Dotted(s[1..], p, from + 1);
      var core := [s[0]] + rest;
      assert core[1..] == rest;
      if from in p {
        assert Dotted(s, p, from) == ['.'] + core;
        assert (['.'] + core)[1..] == core;
      } else {
        assert Dotted(s, p, from) == core;
      }
    }
  }

  lemma {:induction false} DottedLength(s: string, p: set<int>, from: int)
    ensures |Dotted(s, p, from)| == |s| + CountIn(p, from, |s|)
  {
    if s != [] { DottedLength(s[1..], p, from + 1); }
  }

  /** Indices from..from+n-1 that belong to p. */
  function Window(p: set<int>, from: int, n: nat): set<int>
  {
    set j | j in p && from <= j < from + n
  }

  lemma {:induction false} CountInWindow(p: set<int>, from: int, n: nat)
    ensures CountIn(p, from, n) == |Window(p, from, n)|
    decreases n
  {
    if n == 0 {
      assert Window(p, from, n) == {};
    } else {
      CountInWindow(p, from + 1, n - 1);
      var here: set<int> := if from in p then {from} else {};
      assert Window(p, from, n) == here + Window(p, from + 1, n - 1);
      assert here * Window(p, from + 1, n - 1) == {};
    }
  }

  lemma {:induction false} DottedAgree(s: string, p: set<int>, q: set<int>, from: int)
    requires forall j :: from <= j < from + |s| ==> (j in p <==> j in q)
    ensures Dotted(s, p, from) == Dotted(s, q, from)
  {
    if s != [] { DottedAgree(s[1..], p, q, from + 1); }
  }

  lemma {:induction false} DottedNone(s: string, from: int)
    ensures Dotted(s, {}, from) == s
  {
    if s != [] {
      DottedNone(s[1..], from + 1);
      assert s == [s[0]] + s[1..];
    }
  }

  /** Inserting a dot at index k of Dotted(s, p) adds k to p, provided every index
      already in p is larger than k: each insertion refers to an original position. */
  lemma {:induction false} InsertDot(s: string, p: set<int>, k: int, from: int)
    requires from <= k < from + |s|
    requires forall q :: q in p ==> q > k
    ensures k - from <= |Dotted(s, p, from)|
    ensures Dotted(s, p + {k}, from) ==
            Dotted(s, p, from)[..k - from] + ['.'] + Dotted(s, p, from)[k - from..]
  {
    var rest := Dotted(s[1..], p, from + 1);
    assert from !in p;
    assert Dotted(s, p, from) == [s[0]] + rest;
    if k == from {
      DottedAgree(s[1..], p + {k}, p, from + 1);
      assert Dotted(s, p + {k}, from) == ['.'] + [s[0]] + rest;
    } else {
      InsertDot(s[1..], p, k, from + 1);
      var rest' := Dotted(s[1..], p + {k}, from + 1);
      assert Dotted(s, p + {k}, from) == [s[0]] + rest';
      ConsInsert(s[0], rest, k - from - 1);
    }
  }

  /** Inserting into the tail is inserting one position further into the whole. */
  lemma ConsInsert(c: char, rest: string, j: int)
    requires 0 <= j <= |rest|
    ensures [c] + (rest[..j] + ['.'] + rest[j..]) == ([c] + rest)[..j + 1] + ['.'] + ([c] + rest)[j + 1..]
  {
    assert ([c] + rest)[..j + 1] == [c] + rest[..j];
    assert ([c] + rest)[j + 1..] == rest[j..];
  }

  lemma {:induction false} DottedEnds(s: string, p: set<int>, from: int)
    requires s != []
    ensures Dotted(s, p, from) != []
    ensures from !in p ==> Dotted(s, p, from)[0] == s[0]
    ensures Dotted(s, p, from)[|Dotted(s, p, from)| - 1] == s[|s| - 1]
  {
    if |s| > 1 { DottedEnds(s[1..], p, from + 1); }
  }

  lemma {:induction false} DottedNoAt(s: string, p: set<int>, from: int)
    requires '@' !in s
    ensures '@' !in Dotted(s, p, from)
  {
    if s != [] { DottedNoAt(s[1..], p, from + 1); }
  }

  lemma {:induction false} LocalPartOfAddress(local: string, domain: string)
    requires '@' !in local && domain != [] && domain[0] == '@'
    ensures LocalPart(local + domain) == local
  {
    if local != [] {
      assert (local + domain)[1..] == local[1..] + domain;
      LocalPartOfAddress(local[1..], domain);
    } else {
      assert local + domain == domain;
    }
  }

  // ---------------------------------------------------------------------------
  // The generators

  /** The random choices of generate_temp_email: two list indices, three digits, a domain index. */
  datatype TempDraw = TempDraw(adjective: int, noun: int, digits: string, domain: int)

  predicate TempDrawOk(d: TempDraw)
  {
    && 0 <= d.adjective < |Adjectives| && 0 <= d.noun < |Nouns|
    && |d.digits| == 3 && AllDigits(d.digits)
    && 0 <= d.domain < |TempDomains|
  }

  /** A draw random.choice and random.choices can produce. */
  type TempChoice = d: TempDraw | TempDrawOk(d) witness TempDraw(0, 0, "000", 0)

  /** The random choices of generate_gmail_variation: the randint result, the list
      random.sample returns, and the fallback's draw. */
  datatype MailDraw = MailDraw(numDots: int, sample: seq<int>, temp: TempChoice)

  function Elems(s: seq<int>): set<int> { set x | x in s }

  /** The ranges the draws come from: randint(1, min(3, n - 1)) and a sample of that
      many distinct positions from range(1, n), where n is the local part's length. */
  predicate MailDrawOk(local: string, d: MailDraw)
  {
    |local| >= 2 ==>
      && 1 <= d.numDots <= Min(MaxDots, |local| - 1)
      && |d.sample| == d.numDots
      && DistinctBy(d.sample, Identity)
      && forall i :: 0 <= i < |d.sample| ==> 1 <= d.sample[i] < |local|
  }

  predicate TempShape(r: string)
  {
    var local := LocalPart(r);
    && |local| >= 3 && AllDigits(local[|local| - 3..])
    && (exists a, n :: 0 <= a < |Adjectives| && 0 <= n < |Nouns| && local[..|local| - 3] == Adjectives[a] + Nouns[n])
    && |r| > |local| && r[|local| + 1..] in TempDomains
  }

  /** generate_temp_email: adjective, noun and three digits, then '@' and one of the five domains. */
  function TempEmail(d: TempChoice): string
  {
    Adjectives[d.adjective] + Nouns[d.noun] + d.digits + "@" + TempDomains[d.domain]
  }

  /** No adjective or noun contains an '@'. */
  lemma WordHasNoAt(a: int, n: int)
    requires 0 <= a < |Adjectives| && 0 <= n < |Nouns|
    ensures '@' !in Adjectives[a] + Nouns[n]
  {
    assert '@' !in Adjectives[a];
    assert '@' !in Nouns[n];
  }

  /** A temporary address is a word from each list and three digits, then '@' and one
      of the five throwaway domains. */
  lemma TempEmailShape(d: TempChoice)
    ensures TempShape(TempEmail(d))
  {
    var r := TempEmail(d);
    var word := Adjectives[d.adjective] + Nouns[d.noun];
    var local := word + d.digits;
    WordHasNoAt(d.adjective, d.noun);
    assert forall k :: 0 <= k < |d.digits| ==> d.digits[k] != '@';
    var domain := "@" + TempDomains[d.domain];
    assert r == local + domain;
    LocalPartOfAddress(local, domain);
    assert local[|local| - 3..] == d.digits;
    assert local[..|local| - 3] == Adjectives[d.adjective] + Nouns[d.noun];
    assert r[|local| + 1..] == TempDomains[d.domain];
  }

  /** generate_gmail_variation as a function of its draws. */
  function GmailVariation(base: string, d: MailDraw): Result<string>
  {
    if base == [] || !Contains(base, GmailSuffix) then Ok(TempEmail(d.temp))
    else
      var local := LocalPart(base);
      if Min(MaxDots, |local| - 1) < 1 then Err(EmptyRangeError)
      else Ok(DotsVariation(local, d.sample))
  }

  /** The local part with a dot before each sampled position, then "@gmail.com". */
  function DotsVariation(local: string, sample: seq<int>): string
  {
    Dotted(local, Elems(sample), 0) + GmailSuffix
  }

  /** generate_gmail_variation: falls back to a temporary address unless the base
      mentions "@gmail.com"; otherwise inserts the sampled dots into the local part,
      largest position first, and appends "@gmail.com". */
  method GenerateGmailVariation(baseGmail: string, d: MailDraw) returns (r: Result<string>)
    requires MailDrawOk(LocalPart(baseGmail), d)
    ensures r == GmailVariation(baseGmail, d)
  {
    if baseGmail == [] || !Contains(baseGmail, GmailSuffix) {
      return Ok(TempEmail(d.temp));
    }
    var local := LocalPart(baseGmail);
    if Min(MaxDots, |local| - 1) < 1 {
      return Err(EmptyRangeError);
    }
    var numDots := d.numDots;
    var available := |local| - 1;
    if numDots > available {
      numDots := available;
    }
    // The draw already lies in [1, available], so the clamp never changes it and the
    // sample holds exactly numDots positions.
    assert numDots == d.numDots == |d.sample|;
    var positions := SortDesc(d.sample, Identity);
    SortedSample(d.sample, |local|);
    var chars := InsertDots(local, positions);
    return Ok(chars + GmailSuffix);
  }

  /** The insertion loop of generate_gmail_variation: a dot goes in before each of the
      positions, largest first, so each one still indexes the original local part. */
  method InsertDots(local: string, positions: seq<int>) returns (chars: string)
    requires forall a, b :: 0 <= a < b < |positions| ==> positions[a] > positions[b]
    requires forall a :: 0 <= a < |positions| ==> 1 <= positions[a] < |local|
    ensures chars == Dotted(local, Elems(positions), 0)
  {
    chars := local;
    ghost var done: set<int> := {};
    DottedNone(local, 0);
    var i := 0;
    while i < |positions|
      invariant 0 <= i <= |positions|
      invariant done == Elems(positions[..i])
      invariant chars == Dotted(local, done, 0)
    {
      var pos := positions[i];
      DotStep(positions, i, done);
      InsertDot(local, done, pos, 0);
      chars := chars[..pos] + ['.'] + chars[pos..];
      done := done + {pos};
      i := i + 1;
    }
    assert positions[..i] == positions;
  }

  /** Sorting distinct integers in descending order makes them strictly decreasing. */
  lemma SortedStrict(sample: seq<int>)
    requires DistinctBy(sample, Identity)
    ensures var ps := SortDesc(sample, Identity);
            forall a, b :: 0 <= a < b < |ps| ==> ps[a] > ps[b]
  {
    var ps := SortDesc(sample, Identity);
    SortDescDistinct(sample, Identity, Identity);
    assert NonIncreasing(ps, Identity) && DistinctBy(ps, Identity);
    forall a, b | 0 <= a < b < |ps|
      ensures ps[a] > ps[b]
    {
      assert Identity(ps[a]) >= Identity(ps[b]);
      assert Identity(ps[a]) != Identity(ps[b]);
    }
  }

  /** A rearrangement has the same elements. */
  lemma SameElems(ps: seq<int>, sample: seq<int>)
    requires multiset(ps) == multiset(sample)
    ensures Elems(ps) == Elems(sample)
    ensures forall a :: 0 <= a < |ps| ==> exists j :: 0 <= j < |sample| && sample[j] == ps[a]
  {
    forall x
      ensures x in Elems(ps) <==> x in Elems(sample)
    {
      assert x in ps <==> x in multiset(ps);
      assert x in sample <==> x in multiset(sample);
    }
    forall a | 0 <= a < |ps|
      ensures exists j :: 0 <= j < |sample| && sample[j] == ps[a]
    {
      assert ps[a] in multiset(ps);
      assert ps[a] in sample;
    }
  }

  /** The sorted sample is strictly decreasing, lies in [1, n) and has the sample's elements. */
  lemma SortedSample(sample: seq<int>, n: int)
    requires DistinctBy(sample, Identity)
    requires forall i :: 0 <= i < |sample| ==> 1 <= sample[i] < n
    ensures var ps := SortDesc(sample, Identity);
            && (forall a, b :: 0 <= a < b < |ps| ==> ps[a] > ps[b])
            && (forall a :: 0 <= a < |ps| ==> 1 <= ps[a] < n)
            && Elems(ps) == Elems(sample)
  {
    SortedStrict(sample);
    SameElems(SortDesc(sample, Identity), sample);
  }

  /** One iteration of the insertion loop: the next position lies below every one
      already used. */
  lemma DotStep(ps: seq<int>, i: int, done: set<int>)
    requires forall a, b :: 0 <= a < b < |ps| ==> ps[a] > ps[b]
    requires 0 <= i < |ps| && done == Elems(ps[..i])
    ensures forall q :: q in done ==> q > ps[i]
    ensures Elems(ps[..i + 1]) == done + {ps[i]}
  {
    assert ps[..i + 1] == ps[..i] + [ps[i]];
    forall q | q in done
      ensures q > ps[i]
    {
      var a :| 0 <= a < i && ps[..i][a] == q;
      assert ps[a] == q;
    }
  }

  /** A variation comes back undotted to the base's local part, reaches the same
      dot-insensitive mailbox, keeps the first and last characters, is exactly one
      character longer per sampled position, and always ends in "@gmail.com". */
  lemma VariationRoundTrip(local: string, sample: seq<int>)
    requires '@' !in local
    requires DistinctBy(sample, Identity)
    requires forall i :: 0 <= i < |sample| ==> 1 <= sample[i] < |local|
    ensures var r := DotsVariation(local, sample);
            var l := LocalPart(r);
            && r == l + GmailSuffix
            && Undotted(l, Elems(sample), 0) == local
            && StripDots(l) == StripDots(local)
            && |l| == |local| + |sample|
            && (local != [] ==> l[0] == local[0] && l[|l| - 1] == local[|local| - 1])
  {
    var p := Elems(sample);
    var dotted := Dotted(local, p, 0);
    SampleCount(sample, |local|);
    DottedNoAt(local, p, 0);
    LocalPartOfAddress(dotted, GmailSuffix);
    UndottedDotted(local, p, 0);
    StripDotsDotted(local, p, 0);
    DottedLength(local, p, 0);
    if local != [] { DottedEnds(local, p, 0); }
  }

  /** Whatever the draw, a usable base yields an address of the same Gmail mailbox:
      its local part differs from the base's by dots only. */
  lemma VariationSameMailbox(base: string, d: MailDraw)
    requires MailDrawOk(LocalPart(base), d)
    requires Contains(base, GmailSuffix) && |LocalPart(base)| >= 2
    ensures GmailVariation(base, d).Ok?
    ensures StripDots(LocalPart(GmailVariation(base, d).value)) == StripDots(LocalPart(base))
    ensures |LocalPart(GmailVariation(base, d).value)| == |LocalPart(base)| + d.numDots
  {
    VariationRoundTrip(LocalPart(base), d.sample);
  }

  /** A sample of distinct positions in [1, n) puts exactly its length of dots into the
      n characters, none before the first. */
  lemma SampleCount(sample: seq<int>, n: nat)
    requires DistinctBy(sample, Identity)
    requires forall i :: 0 <= i < |sample| ==> 1 <= sample[i] < n
    ensures CountIn(Elems(sample), 0, n) == |sample|
    ensures 0 !in Elems(sample)
  {
    var p := Elems(sample);
    CountInWindow(p, 0, n);
    assert Window(p, 0, n) == p;
    SampleSize(sample);
  }

  /** The sample's distinct entries form a set of its length. */
  lemma {:induction false} SampleSize(s: seq<int>)
    requires DistinctBy(s, Identity)
    ensures |Elems(s)| == |s|
  {
    if s != [] {
      SampleSize(s[1..]);
      assert Elems(s) == {s[0]} + Elems(s[1..]);
      assert s[0] !in Elems(s[1..]);
    }
  }

  /** A base address the Gmail generator cannot vary: it mentions "@gmail.com" but its
      local part is at most one character long. */
  predicate Unusable(base: string)
  {
    Contains(base, GmailSuffix) && |LocalPart(base)| <= 1
  }

  /** generate_gmail_variation raises exactly for an unusable base, whatever the draw. */
  lemma VariationFails(base: string, d: MailDraw)
    ensures GmailVariation(base, d).Err? <==> Unusable(base)
  {
  }

  /** The address getmails makes for one iteration: the Gmail generator when a base
      address is configured, the temporary one otherwise. */
  function MailFor(baseGmail: string, d: MailDraw): Result<string>
  {
    if baseGmail != [] then GmailVariation(baseGmail, d) else Ok(TempEmail(d.temp))
  }

  /** getmails fails on one iteration exactly when the base is unusable; an empty base is not. */
  lemma MailForFails(base: string, d: MailDraw)
    ensures MailFor(base, d).Err? <==> Unusable(base)
  {
    VariationFails(base, d);
    if base == [] { assert !Contains(base, GmailSuffix); }
  }

  /** The body of getmails' loop: vary the base when there is one. */
  method MakeAddress(baseGmail: string, d: MailDraw) returns (email: Result<string>)
    requires MailDrawOk(LocalPart(baseGmail), d)
    ensures email == MailFor(baseGmail, d)
  {
    if baseGmail != [] {
      email := GenerateGmailVariation(baseGmail, d);
    } else {
      email := Ok(TempEmail(d.temp));
    }
  }

  /** What getmails returns: one address for count == 1, else a list. */
  datatype Mails = One(address: string) | Many(addresses: seq<string>)

  /** The addresses made from the draws in turn, the first failure aborting the rest. */
  function Addresses(baseGmail: string, ds: seq<MailDraw>): Result<seq<string>>
  {
    if ds == [] then Ok([])
    else
      var front := Addresses(baseGmail, ds[..|ds| - 1]);
      if front.Err? then front
      else
        var last := MailFor(baseGmail, ds[|ds| - 1]);
        if last.Err? then Err(last.error) else Ok(front.value + [last.value])
  }

  /** Making several addresses fails exactly when there is at least one to make and the
      base is unusable. */
  lemma {:induction false} AddressesFail(baseGmail: string, ds: seq<MailDraw>)
    ensures Addresses(baseGmail, ds).Err? <==> ds != [] && Unusable(baseGmail)
  {
    if ds != [] {
      AddressesFail(baseGmail, ds[..|ds| - 1]);
      MailForFails(baseGmail, ds[|ds| - 1]);
    }
  }

  /** Once making the first k addresses fails, making more fails the same way. */
  lemma {:induction false} AddressesErrSticks(baseGmail: string, ds: seq<MailDraw>, k: nat)
    requires k <= |ds| && Addresses(baseGmail, ds[..k]).Err?
    ensures Addresses(baseGmail, ds) == Addresses(baseGmail, ds[..k])
    decreases |ds| - k
  {
    if k == |ds| {
      assert ds[..k] == ds;
    } else {
      var init := ds[..|ds| - 1];
      assert init[..k] == ds[..k];
      AddressesErrSticks(baseGmail, init, k);
    }
  }

  /** One more successful draw appends its address. */
  lemma AddressesStep(baseGmail: string, draws: seq<MailDraw>, i: nat)
    requires i < |draws|
    requires Addresses(baseGmail, draws[..i]).Ok? && MailFor(baseGmail, draws[i]).Ok?
    ensures Addresses(baseGmail, draws[..i + 1]) ==
            Ok(Addresses(baseGmail, draws[..i]).value + [MailFor(baseGmail, draws[i]).value])
  {
    assert draws[..i + 1][..i] == draws[..i];
  }

  /** The first draw that fails decides the outcome of the whole run. */
  lemma FailureAborts(baseGmail: string, draws: seq<MailDraw>, count: int, i: nat)
    requires i < count <= |draws|
    requires Addresses(baseGmail, draws[..i]).Ok? && MailFor(baseGmail, draws[i]).Err?
    ensures Addresses(baseGmail, draws[..count]) == Err(MailFor(baseGmail, draws[i]).error)
  {
    assert draws[..i + 1][..i] == draws[..i];
    assert draws[..count][..i + 1] == draws[..i + 1];
    AddressesErrSticks(baseGmail, draws[..count], i + 1);
  }

  /** Making addresses that succeeds makes one per draw. */
  lemma {:induction false} AddressesLength(baseGmail: string, ds: seq<MailDraw>)
    ensures Addresses(baseGmail, ds).Ok? ==> |Addresses(baseGmail, ds).value| == |ds|
  {
    if ds != [] { AddressesLength(baseGmail, ds[..|ds| - 1]); }
  }

  /** Otherwise the i-th address is the one the i-th draw gives. */
  lemma {:induction false} AddressesEach(baseGmail: string, ds: seq<MailDraw>)
    requires Addresses(baseGmail, ds).Ok?
    ensures |Addresses(baseGmail, ds).value| == |ds|
    ensures forall i :: 0 <= i < |ds| ==> Ok(Addresses(baseGmail, ds).value[i]) == MailFor(baseGmail, ds[i])
  {
    if ds != [] {
      var init := ds[..|ds| - 1];
      AddressesEach(baseGmail, init);
      var front := Addresses(baseGmail, init).value;
      var last := MailFor(baseGmail, ds[|ds| - 1]);
      assert Addresses(baseGmail, ds).value == front + [last.value];
      forall i | 0 <= i < |ds|
        ensures Ok((front + [last.value])[i]) == MailFor(baseGmail, ds[i])
      {
        if i < |ds| - 1 { assert ds[i] == init[i]; }
      }
    }
  }

  /** getmails: `count` addresses, one string for count == 1; the first error raised
      aborts the call. The base address is the `base_gmail` configuration entry, ""
      when absent. */
  method GetMails(count: int, baseGmail: string, draws: seq<MailDraw>) returns (r: Result<Mails>)
    requires count <= |draws|
    requires forall i :: 0 <= i < |draws| ==> MailDrawOk(LocalPart(baseGmail), draws[i])
    ensures var made := Addresses(baseGmail, draws[..if count < 0 then 0 else count]);
            r == if made.Err? then Err(made.error)
                 else if count == 1 then Ok(One(made.value[0]))
                 else Ok(Many(made.value))
  {
    var emails: seq<string> := [];
    var i := 0;
    while i < count
      invariant 0 <= i <= (if count < 0 then 0 else count)
      invariant Addresses(baseGmail, draws[..i]) == Ok(emails)
    {
      var email := MakeAddress(baseGmail, draws[i]);
      if email.Err? {
        FailureAborts(baseGmail, draws, count, i);
        return Err(email.error);
      }
      AddressesStep(baseGmail, draws, i);
      emails := emails + [email.value];
      i := i + 1;
    }
    AddressesLength(baseGmail, draws[..i]);
    if count == 1 {
      return Ok(One(emails[0]));
    }
    return Ok(Many(emails));
  }

  /** What getmails promises its caller: an error exactly for a positive count and an
      unusable base, else one address per draw (a single string when count is 1). */
  lemma GetMailsOutcome(count: int, baseGmail: string, draws: seq<MailDraw>)
    requires 0 <= count <= |draws|
    ensures var made := Addresses(baseGmail, draws[..count]);
            && (made.Err? <==> count >= 1 && Unusable(baseGmail))
            && (made.Ok? ==> |made.value| == count)
            && (made.Ok? ==> forall i :: 0 <= i < count ==> Ok(made.value[i]) == MailFor(baseGmail, draws[i]))
  {
    AddressesFail(baseGmail, draws[..count]);
    if count == 0 { assert draws[..count] == []; }
    var made := Addresses(baseGmail, draws[..count]);
    if made.Ok? {
      AddressesEach(baseGmail, draws[..count]);
      forall i | 0 <= i < count
        ensures Ok(made.value[i]) == MailFor(baseGmail, draws[i])
      {
        assert draws[..count][i] == draws[i];
      }
    }
  }

  // ---------------------------------------------------------------------------
  // Verification code entry

  /** ASCII characters for which Python's str.isspace holds. */
  predicate IsSpace(c: char)
  {
    c == ' ' || '\t' <= c <= '\r' || '\U{1c}' <= c <= '\U{1f}'
  }

  function StripLeft(s: string): string
  {
    if s != [] && IsSpace(s[0]) then StripLeft(s[1..]) else s
  }

  function StripRight(s: string): string
  {
    if s != [] && IsSpace(s[|s| - 1]) then StripRight(s[..|s| - 1]) else s
  }

  /** `str.strip()`: the input without leading and trailing whitespace. */
  function Strip(s: string): string
  {
    StripRight(StripLeft(s))
  }

  /** r is s[i..j] and everything of s outside that slice is whitespace. */
  predicate TrimmedTo(s: string, r: string, i: int, j: int)
  {
    && 0 <= i <= j <= |s| && r == s[i..j]
    && (forall k :: 0 <= k < i ==> IsSpace(s[k]))
    && (forall k :: j <= k < |s| ==> IsSpace(s[k]))
  }

  /** Number of whitespace characters StripLeft removes. */
  function LeadingSpaces(s: string): nat
  {
    if s != [] && IsSpace(s[0]) then 1 + LeadingSpaces(s[1..]) else 0
  }

  /** Number of whitespace characters StripRight removes. */
  function TrailingSpaces(s: string): nat
  {
    if s != [] && IsSpace(s[|s| - 1]) then 1 + TrailingSpaces(s[..|s| - 1]) else 0
  }

  lemma {:induction false} StripLeftFacts(s: string)
    ensures LeadingSpaces(s) <= |s|
    ensures TrimmedTo(s, StripLeft(s), LeadingSpaces(s), |s|)
    ensures StripLeft(s) == [] || !IsSpace(StripLeft(s)[0])
  {
    if s != [] && IsSpace(s[0]) {
      var tail := s[1..];
      StripLeftFacts(tail);
      var i := LeadingSpaces(tail);
      assert tail[i..] == s[i + 1..];
      forall k | 0 <= k < i + 1
        ensures IsSpace(s[k])
      {
        if k > 0 { assert s[k] == tail[k - 1]; }
      }
    } else {
      assert s[0..] == s;
    }
  }

  lemma {:induction false} StripRightFacts(s: string)
    ensures TrailingSpaces(s) <= |s|
    ensures TrimmedTo(s, StripRight(s), 0, |s| - TrailingSpaces(s))
    ensures StripRight(s) == [] || !IsSpace(StripRight(s)[|StripRight(s)| - 1])
  {
    if s != [] && IsSpace(s[|s| - 1]) {
      var init := s[..|s| - 1];
      StripRightFacts(init);
      var j := |init| - TrailingSpaces(init);
      assert init[..j] == s[..j];
      forall k | j <= k < |s|
        ensures IsSpace(s[k])
      {
        if k < |init| { assert s[k] == init[k]; }
      }
    } else {
      assert s[..|s|] == s;
    }
  }

  /** `str.strip()` removes exactly the leading and trailing whitespace. */
  lemma StripFacts(s: string)
    ensures var r := Strip(s);
            && (r == [] || (!IsSpace(r[0]) && !IsSpace(r[|r| - 1])))
            && exists i, j :: TrimmedTo(s, r, i, j)
  {
    StripLeftFacts(s);
    var i := LeadingSpaces(s);
    var t := s[i..];
    StripRightFacts(t);
    var j := |t| - TrailingSpaces(t);
    assert s[i..|s|] == t;
    assert t[0..j] == t[..j] == s[i..i + j];
    assert Strip(s) == StripRight(t);
    forall k | i + j <= k < |s|
      ensures IsSpace(s[k])
    {
      assert s[k] == t[k - i];
    }
    assert TrimmedTo(s, Strip(s), i, i + j);
    if Strip(s) != [] {
      assert Strip(s)[0] == t[0];
    }
  }

  /** `str.lower()` on ASCII letters. */
  function Lower(s: string): (r: string)
    ensures |r| == |s|
  {
    if s == [] then []
    else [if 'A' <= s[0] <= 'Z' then (s[0] as int + 32) as char else s[0]] + Lower(s[1..])
  }

  /** The operator's reaction to one line of input. */
  datatype CodeEntry = SkipEntry | Accepted(code: string) | Invalid

  /** One iteration of get_verification_code's prompt loop on a stripped line. */
  function ClassifyEntry(code: string): (e: CodeEntry)
    ensures e.SkipEntry? <==> Lower(code) == "skip"
    ensures e.Accepted? <==> |code| == 6 && AllDigits(code)
    ensures e.Accepted? ==> e.code == code
  {
    if Lower(code) == "skip" then SkipEntry
    else if AllDigits(code) && |code| == 6 then Accepted(code)
    else
      Invalid
  }

  /** The first decisive answer among the lines typed, None when input ends first. */
  function FirstDecision(lines: seq<string>): Option<string>
  {
    if lines == [] then None
    else match ClassifyEntry(Strip(lines[0]))
      case SkipEntry => None
      case Accepted(code) => Some(code)
      case Invalid => FirstDecision(lines[1..])
  }

  /** Index of the first line that is not rejected, |lines| when every line is. */
  function DecisiveLine(lines: seq<string>): (k: nat)
    ensures k <= |lines|
    ensures forall j :: 0 <= j < k ==> ClassifyEntry(Strip(lines[j])).Invalid?
    ensures k < |lines| ==> !ClassifyEntry(Strip(lines[k])).Invalid?
  {
    if lines == [] || !ClassifyEntry(Strip(lines[0])).Invalid? then 0
    else
      var k := DecisiveLine(lines[1..]);
      assert forall j :: 1 <= j < k + 1 ==> lines[j] == lines[1..][j - 1];
      k + 1
  }

  /** get_verification_code returns the code on the first line that is not rejected,
      and None when that line says "skip" or input ends before any such line. */
  lemma {:induction false} FirstDecisionAtDecisiveLine(lines: seq<string>)
    ensures var k := DecisiveLine(lines);
            FirstDecision(lines) ==
              if k < |lines| && ClassifyEntry(Strip(lines[k])).Accepted? then Some(Strip(lines[k])) else None
  {
    if lines != [] && ClassifyEntry(Strip(lines[0])).Invalid? {
      FirstDecisionAtDecisiveLine(lines[1..]);
      var k := DecisiveLine(lines[1..]);
      if k < |lines[1..]| { assert lines[1..][k] == lines[k + 1]; }
    }
  }

  /** get_verification_code: prompts until a six-digit code or "skip" in any case is
      entered; the end of input raises inside the prompt and yields None as well. */
  method GetVerificationCode(lines: seq<string>) returns (code: Option<string>)
    ensures code == FirstDecision(lines)
    ensures code.Some? ==> |code.value| == 6 && AllDigits(code.value)
  {
    FirstDecisionAtDecisiveLine(lines);
    var i := 0;
    while i < |lines|
      invariant 0 <= i <= |lines|
      invariant FirstDecision(lines) == FirstDecision(lines[i..])
    {
      assert lines[i..][1..] == lines[i + 1..];
      var entry := Strip(lines[i]);
      if Lower(entry) == "skip" {
        return None;
      }
      if AllDigits(entry) && |entry| == 6 {
        return Some(entry);
      }
      i := i + 1;
    }
    return None;
  }

  /** "skip" typed in any mix of letter cases skips: the prompt answers None at once,
      whatever follows; no such word is ever a code. */
  lemma SkipInAnyCase(w: string, rest: seq<string>)
    requires |w| == 4
    requires forall k :: 0 <= k < 4 ==> w[k] == "skip"[k] || w[k] == "SKIP"[k]
    ensures Lower(w) == "skip"
    ensures ClassifyEntry(w) == SkipEntry
    ensures FirstDecision([w] + rest) == None
  {
    assert Lower(w) == Lower(w[..1]) + Lower(w[1..2]) + Lower(w[2..3]) + Lower(w[3..]) by {
      LowerAppend(w[..1], w[1..2]);
      LowerAppend(w[..1] + w[1..2], w[2..3]);
      LowerAppend(w[..1] + w[1..2] + w[2..3], w[3..]);
      assert w[..1] + w[1..2] + w[2..3] + w[3..] == w;
    }
    assert Strip(w) == w;
    assert ([w] + rest)[0] == w;
  }

  /** Lowering works character by character. */
  lemma {:induction false} LowerAppend(s: string, t: string)
    ensures Lower(s + t) == Lower(s) + Lower(t)
  {
    if s != [] {
      assert (s + t)[0] == s[0];
      assert (s + t)[1..] == s[1..] + t;
      LowerAppend(s[1..], t);
    } else {
      assert s + t == t;
    }
  }
}
