/**
 * The company search endpoint (`searchCompanies`): it validates the
 * request, consults the cache under a normalised key, and otherwise
 * guesses up to two logo domains from the company name, lets a table of
 * well-known companies override the first guess, removes guesses that
 * repeat a domain and keeps at most three.
 *
 * The cache (Redis in the application) is a map passed in and returned.
 */
module CompanySearch {
  import opened Wrappers
  import Text
  import Seqs

  /** One entry of the response list. */
  datatype Suggestion = Suggestion(name: string, domain: string, logoUrl: string, description: string)

  /** An entry of the table of well-known companies. */
  datatype Known = Known(domain: string, name: string)

  /** The HTTP outcome: status 400 with a detail message, or a JSON list of suggestions. */
  datatype Response = BadRequest(detail: string) | Suggestions(list: seq<Suggestion>)

  const LogoBase: string := "https://logo.clearbit.com/"

  /** The table of well-known companies (`knownCompanies`), in the order it is written. */
  const KnownCompanies: seq<(string, Known)> := [
    ("google", Known("google.com", "Google")),
    ("meta", Known("meta.com", "Meta Platforms")),
    ("facebook", Known("facebook.com", "Meta (Facebook)")),
    ("amazon", Known("amazon.com", "Amazon")),
    ("apple", Known("apple.com", "Apple")),
    ("microsoft", Known("microsoft.com", "Microsoft")),
    ("netflix", Known("netflix.com", "Netflix")),
    ("stripe", Known("stripe.com", "Stripe")),
    ("uber", Known("uber.com", "Uber")),
    ("airbnb", Known("airbnb.com", "Airbnb")),
    ("spotify", Known("spotify.com", "Spotify")),
    ("twitter", Known("twitter.com", "X (Twitter)")),
    ("x", Known("x.com", "X (Twitter)")),
    ("linkedin", Known("linkedin.com", "LinkedIn")),
    ("salesforce", Known("salesforce.com", "Salesforce")),
    ("oracle", Known("oracle.com", "Oracle")),
    ("ibm", Known("ibm.com", "IBM")),
    ("intel", Known("intel.com", "Intel")),
    ("nvidia", Known("nvidia.com", "NVIDIA")),
    ("adobe", Known("adobe.com", "Adobe")),
    ("shopify", Known("shopify.com", "Shopify")),
    ("zoom", Known("zoom.us", "Zoom")),
    ("slack", Known("slack.com", "Slack")),
    ("dropbox", Known("dropbox.com", "Dropbox")),
    ("github", Known("github.com", "GitHub")),
    ("gitlab", Known("gitlab.com", "GitLab")),
    ("atlassian", Known("atlassian.com", "Atlassian")),
    ("tcs", Known("tcs.com", "Tata Consultancy Services")),
    ("infosys", Known("infosys.com", "Infosys")),
    ("wipro", Known("wipro.com", "Wipro")),
    ("cognizant", Known("cognizant.com", "Cognizant")),
    ("accenture", Known("accenture.com", "Accenture")),
    ("deloitte", Known("deloitte.com", "Deloitte")),
    ("pwc", Known("pwc.com", "PwC")),
    ("kpmg", Known("kpmg.com", "KPMG")),
    ("ey", Known("ey.com", "Ernst & Young")),
    ("mckinsey", Known("mckinsey.com", "McKinsey & Company")),
    ("bcg", Known("bcg.com", "Boston Consulting Group")),
    ("bain", Known("bain.com", "Bain & Company"))
  ]

  /** The entry of `key` in a table of distinct keys, `None` when it has none. */
  function Lookup(table: seq<(string, Known)>, key: string): Option<Known> {
    if table == [] then None
    else if table[0].0 == key then Some(table[0].1)
    else Lookup(table[1..], key)
  }

  /** A key that no entry has is not found. */
  lemma {:induction false} LookupMissing(table: seq<(string, Known)>, key: string)
    requires forall k :: 0 <= k < |table| ==> table[k].0 != key
    ensures Lookup(table, key) == None
  {
    if table != [] {
      LookupMissing(table[1..], key);
    }
  }

  /** A key that some entry has is found, with the entry of its first occurrence. */
  lemma {:induction false} LookupPresent(table: seq<(string, Known)>, i: nat)
    requires i < |table|
    requires forall k :: 0 <= k < i ==> table[k].0 != table[i].0
    ensures Lookup(table, table[i].0) == Some(table[i].1)
  {
    if i > 0 {
      LookupPresent(table[1..], i - 1);
    }
  }

  /** `knownCompanies[lowerName]`. */
  function KnownCompany(lowerName: string): Option<Known> {
    Lookup(KnownCompanies, lowerName)
  }

  // ------------------------------------------------------------ name normalisation

  /** The characters `/[^a-z0-9]/g` does not remove. */
  predicate IsSanitizedChar(c: char) {
    ('a' <= c <= 'z') || ('0' <= c <= '9')
  }

  /** `name.toLowerCase().replace(/[^a-z0-9]/g, '')`. */
  function Sanitize(name: string): (r: string)
    ensures forall k :: 0 <= k < |r| ==> IsSanitizedChar(r[k])
    ensures |r| <= |name|
  {
    Seqs.Filter(IsSanitizedChar, Text.ToLower(name))
  }

  /** The sanitised name keeps exactly the lower-case letters and digits of the lowercased name, in order. */
  lemma SanitizeKeeps(name: string)
    ensures forall c :: c in Sanitize(name) <==> c in Text.ToLower(name) && IsSanitizedChar(c)
    ensures forall c :: multiset(Sanitize(name))[c] == if IsSanitizedChar(c) then multiset(Text.ToLower(name))[c] else 0
    ensures Seqs.IsSubsequence(Sanitize(name), Text.ToLower(name))
  {
    Seqs.FilterMembership(IsSanitizedChar, Text.ToLower(name));
    Seqs.FilterOccurrences(IsSanitizedChar, Text.ToLower(name));
  }

  /** Sanitising a sanitised name changes nothing. */
  lemma SanitizeIdempotent(name: string)
    ensures Sanitize(Sanitize(name)) == Sanitize(name)
  {
    var r := Sanitize(name);
    assert Text.ToLower(r) == r;
    Seqs.FilterAll(IsSanitizedChar, r);
  }

  /** The key under which a search is cached: `company:` and the lowercased, trimmed name. */
  function CacheKey(name: string): (key: string)
    ensures |key| >= 8 && key[..8] == "company:"
    ensures Text.IsTrimmed(key[8..]) && Text.ToLower(key[8..]) == key[8..]
    ensures |key| <= 8 + |name|
    ensures Text.IsTrimmed(name) && Text.ToLower(name) == name ==> key == "company:" + name
  {
    var n := LookupName(name);
    assert ("company:" + n)[8..] == n;
    "company:" + Text.Trim(Text.ToLower(name))
  }

  /** The name looked up in the table of well-known companies: without outer whitespace and in lower case. */
  function LookupName(name: string): (r: string)
    ensures Text.IsTrimmed(r) && Text.ToLower(r) == r
    ensures |r| <= |name|
    ensures Text.IsTrimmed(name) && Text.ToLower(name) == name ==> r == name
  {
    Text.TrimToLower(name);
    Text.ToLowerIdempotent(Text.Trim(name));
    assert Text.IsTrimmed(name) ==> Text.Trim(name) == name by {
      if Text.IsTrimmed(name) { Text.TrimOfTrimmed(name); }
    }
    Text.Trim(Text.ToLower(name))
  }

  /** Names that differ only in letter case and in outer whitespace share a cache key and a table lookup. */
  lemma {:induction false} CacheKeyShared(a: string, b: string, w1: string, w2: string)
    requires Text.ToLower(a) == Text.ToLower(b)
    requires forall k :: 0 <= k < |w1| ==> Text.IsSpace(w1[k])
    requires forall k :: 0 <= k < |w2| ==> Text.IsSpace(w2[k])
    ensures CacheKey(w1 + a + w2) == CacheKey(b)
    ensures LookupName(w1 + a + w2) == LookupName(b)
  {
    var padded := w1 + a + w2;
    Text.TrimToLower(padded);
    Text.TrimOuterSpaces(w1, a, w2);
    Text.TrimToLower(a);
  }

  /** Two names share a cache key only when their lowercased, trimmed forms agree. */
  lemma CacheKeyExact(a: string, b: string)
    ensures CacheKey(a) == CacheKey(b) <==> LookupName(a) == LookupName(b)
  {
    if CacheKey(a) == CacheKey(b) {
      Seqs.PrefixCancel("company:", LookupName(a), LookupName(b));
    }
  }

  // ------------------------------------------------------------ guesses

  /** `words.map(w => w[0]).join('')`: an empty word contributes nothing. */
  function Initials(words: seq<string>): (r: string)
    ensures |r| == |Seqs.Filter(IsWord, words)|
    ensures forall k :: 0 <= k < |r| ==> r[k] == Seqs.Filter(IsWord, words)[k][0]
  {
    if words == [] then []
    else
      var rest := Initials(words[1..]);
      ghost var kept := Seqs.Filter(IsWord, words[1..]);
      assert Seqs.Filter(IsWord, words) == if IsWord(words[0]) then [words[0]] + kept else kept;
      (if words[0] == [] then [] else [words[0][0]]) + rest
  }

  /** A non-empty piece of the split name. */
  predicate IsWord(w: string) { w != [] }

  /** The words of the lowercased name, split on runs of whitespace. */
  function Words(name: string): (r: seq<string>)
    ensures |r| >= 1
    ensures !Text.HasSpace(name) ==> r == [Text.ToLower(name)]
    ensures forall k :: 0 <= k < |r| ==> !Text.HasSpace(r[k])
    ensures Text.Join(r, []) == Text.DropSpaces(Text.ToLower(name))
    ensures forall k :: 0 < k < |r| - 1 ==> r[k] != []
  {
    var lower := Text.ToLower(name);
    Text.HasSpaceToLower(name);
    Text.SplitWhitespacePieces(lower);
    Text.SplitWhitespaceConcat(lower);
    Text.SplitWhitespaceInnerPieces(lower);
    Text.SplitWhitespace(lower)
  }

  /** The name splits into several words exactly when it contains whitespace anywhere. */
  lemma SeveralWordsIffSpace(name: string)
    ensures |Words(name)| > 1 <==> Text.HasSpace(name)
  {
    Text.SplitWhitespaceSeveral(Text.ToLower(name));
    Text.HasSpaceToLower(name);
  }

  /** The abbreviation holds no whitespace. */
  lemma {:induction false} InitialsHaveNoSpace(words: seq<string>)
    requires forall k :: 0 <= k < |words| ==> !Text.HasSpace(words[k])
    ensures !Text.HasSpace(Initials(words))
  {
    if words != [] {
      InitialsHaveNoSpace(words[1..]);
      var head := if words[0] == [] then [] else [words[0][0]];
      assert Initials(words) == head + Initials(words[1..]);
      if words[0] != [] {
        assert !Text.IsSpace(words[0][0]);
      }
    }
  }

  /** The most likely guess: the sanitised name with `.com`. */
  function Primary(name: string): (r: Suggestion)
    ensures r.name == name && r.description == name && LogoMatches(r)
    ensures |r.domain| >= 4 && r.domain[|r.domain| - 4..] == ".com"
    ensures forall k :: 0 <= k < |r.domain| - 4 ==> IsSanitizedChar(r.domain[k])
  {
    var domain := Sanitize(name) + ".com";
    Suggestion(name, domain, LogoBase + domain, name)
  }

  /** The guess added for names of several words: their initials with `.com`. */
  function Alternative(name: string): (r: Suggestion)
    ensures r.name == name && LogoMatches(r)
    ensures |r.domain| >= 4 && r.domain[|r.domain| - 4..] == ".com"
    ensures r.domain == Initials(Words(name)) + ".com"
    ensures |r.domain| - 4 <= |Words(name)|
  {
    var domain := Initials(Words(name)) + ".com";
    Suggestion(name, domain, LogoBase + domain, name + " (abbreviated)")
  }

  /** The entry replacing the first guess for a well-known company. */
  function FromKnown(known: Known): (r: Suggestion)
    ensures r.name == known.name && r.domain == known.domain && LogoMatches(r)
  {
    Suggestion(known.name, known.domain, LogoBase + known.domain, known.name)
  }

  /** The first guess given the table's answer for the name. */
  function FirstGuessOf(name: string, known: Option<Known>): (r: Suggestion)
    ensures LogoMatches(r)
    ensures known.Some? ==> r.domain == known.value.domain && r.name == known.value.name
  {
    match known
    case Some(k) => FromKnown(k)
    case None => Primary(name)
  }

  /** The first entry of a fresh answer: the table's entry when the name is well known, else the primary guess. */
  function FirstGuess(name: string): Suggestion {
    FirstGuessOf(name, KnownCompany(LookupName(name)))
  }

  // ------------------------------------------------------------ de-duplication

  /** `self.findIndex(c => c.domain === domain)`: the first index with that domain, or -1. */
  function FindDomain(self: seq<Suggestion>, domain: string): (i: int)
    ensures -1 <= i < |self|
    ensures 0 <= i ==> self[i].domain == domain
    ensures i == -1 ==> forall k :: 0 <= k < |self| ==> self[k].domain != domain
    ensures 0 <= i ==> forall k :: 0 <= k < i ==> self[k].domain != domain
  {
    if self == [] then -1
    else if self[0].domain == domain then 0
    else var j := FindDomain(self[1..], domain); if j == -1 then -1 else j + 1
  }

  /** The entry at `k` is the first with its domain. */
  predicate IsFirstOfDomain(self: seq<Suggestion>, k: nat)
    requires k < |self|
  {
    FindDomain(self, self[k].domain) == k
  }

  /** The entries of `self` from index `i` on that pass `index === self.findIndex(...)`. */
  function DedupFrom(self: seq<Suggestion>, i: nat): (r: seq<Suggestion>)
    requires i <= |self|
    ensures |r| <= |self| - i
    decreases |self| - i
  {
    if i == |self| then []
    else (if IsFirstOfDomain(self, i) then [self[i]] else []) + DedupFrom(self, i + 1)
  }

  /** `companies.filter((company, index, self) => index === self.findIndex(c => c.domain === company.domain))`. */
  function DedupByDomain(companies: seq<Suggestion>): (r: seq<Suggestion>)
    ensures |r| <= |companies|
  {
    DedupFrom(companies, 0)
  }

  /** No two entries share a domain. */
  predicate DistinctDomains(s: seq<Suggestion>) {
    forall i, j :: 0 <= i < j < |s| ==> s[i].domain != s[j].domain
  }

  /** Everything `DedupFrom` keeps is the first entry of its domain, at index `i` or later. */
  lemma {:induction false} DedupFromKept(self: seq<Suggestion>, i: nat)
    requires i <= |self|
    ensures forall x :: x in DedupFrom(self, i) ==>
      exists k :: i <= k < |self| && self[k] == x && IsFirstOfDomain(self, k)
    decreases |self| - i
  {
    if i < |self| {
      DedupFromKept(self, i + 1);
    }
  }

  /** `DedupFrom` keeps one entry per domain. */
  lemma {:induction false} DedupFromDistinct(self: seq<Suggestion>, i: nat)
    requires i <= |self|
    ensures DistinctDomains(DedupFrom(self, i))
    decreases |self| - i
  {
    if i < |self| {
      DedupFromDistinct(self, i + 1);
      var rest := DedupFrom(self, i + 1);
      if IsFirstOfDomain(self, i) {
        DedupFromKept(self, i + 1);
        var r := [self[i]] + rest;
        assert DedupFrom(self, i) == r;
        forall b | 1 <= b < |r| ensures r[0].domain != r[b].domain {
          assert r[b] in rest;
          var k :| i + 1 <= k < |self| && self[k] == r[b] && IsFirstOfDomain(self, k);
          assert self[i].domain != self[k].domain;
        }
        forall a, b | 0 <= a < b < |r| ensures r[a].domain != r[b].domain {
          if a > 0 {
            assert r[a] == rest[a - 1] && r[b] == rest[b - 1];
          }
        }
      }
    }
  }

  /** `DedupFrom` keeps every first entry of a domain from index `i` on. */
  lemma {:induction false} DedupFromComplete(self: seq<Suggestion>, i: nat)
    requires i <= |self|
    ensures forall k {:trigger IsFirstOfDomain(self, k)} ::
      i <= k < |self| && IsFirstOfDomain(self, k) ==> self[k] in DedupFrom(self, i)
    decreases |self| - i
  {
    if i < |self| {
      DedupFromComplete(self, i + 1);
    }
  }

  /** `DedupFrom` keeps the input order. */
  lemma {:induction false} DedupFromOrdered(self: seq<Suggestion>, i: nat)
    requires i <= |self|
    ensures Seqs.IsSubsequence(DedupFrom(self, i), self[i..])
    decreases |self| - i
  {
    if i < |self| {
      DedupFromOrdered(self, i + 1);
      var rest := DedupFrom(self, i + 1);
      assert self[i..][1..] == self[i + 1..];
      if IsFirstOfDomain(self, i) {
        assert DedupFrom(self, i) == [self[i]] + rest;
        assert ([self[i]] + rest)[1..] == rest;
      } else {
        assert DedupFrom(self, i) == rest;
        if rest != [] {
          DedupFromKept(self, i + 1);
          assert rest[0] in rest;
          var k :| i + 1 <= k < |self| && self[k] == rest[0] && IsFirstOfDomain(self, k);
          assert FindDomain(self, self[i].domain) < i;
        }
      }
    }
  }

  /** De-duplication keeps, in order, the first entry of every domain and nothing else. */
  lemma DedupByDomainSpec(companies: seq<Suggestion>)
    ensures DistinctDomains(DedupByDomain(companies))
    ensures forall x :: x in DedupByDomain(companies) ==>
      exists k :: 0 <= k < |companies| && companies[k] == x && IsFirstOfDomain(companies, k)
    ensures forall k :: 0 <= k < |companies| ==>
      exists x :: x in DedupByDomain(companies) && x.domain == companies[k].domain
    ensures Seqs.IsSubsequence(DedupByDomain(companies), companies)
  {
    DedupFromKept(companies, 0);
    DedupFromDistinct(companies, 0);
    DedupFromComplete(companies, 0);
    DedupFromOrdered(companies, 0);
    assert companies[0..] == companies;
    forall k | 0 <= k < |companies|
      ensures exists x :: x in DedupByDomain(companies) && x.domain == companies[k].domain
    {
      var j := FindDomain(companies, companies[k].domain);
      assert IsFirstOfDomain(companies, j);
      assert companies[j] in DedupByDomain(companies);
    }
  }

  /** A list whose domains are already distinct is left as it is. */
  lemma {:induction false} DedupDistinct(self: seq<Suggestion>, i: nat)
    requires i <= |self|
    requires DistinctDomains(self)
    ensures DedupFrom(self, i) == self[i..]
    decreases |self| - i
  {
    if i < |self| {
      DedupDistinct(self, i + 1);
      assert IsFirstOfDomain(self, i);
      assert self[i..] == [self[i]] + self[i + 1..];
    }
  }

  /** The one- and two-entry lists the endpoint builds. */
  lemma DedupSmall(a: Suggestion, b: Suggestion)
    ensures DedupByDomain([a]) == [a]
    ensures DedupByDomain([a, b]) == if a.domain == b.domain then [a] else [a, b]
  {
    DedupDistinct([a], 0);
    assert [a][0..] == [a];
    if a.domain != b.domain {
      DedupDistinct([a, b], 0);
      assert [a, b][0..] == [a, b];
    } else {
      assert FindDomain([a, b], b.domain) == 0;
      assert DedupFrom([a, b], 2) == [];
      assert DedupFrom([a, b], 1) == [];
    }
  }

  // ------------------------------------------------------------ the endpoint

  /** An entry's logo address is the logo service followed by the entry's own domain. */
  predicate LogoMatches(s: Suggestion) {
    s.logoUrl == LogoBase + s.domain
  }

  /** A present, non-empty name that the cache has no answer for. */
  predicate IsMiss(companyName: Option<string>, cache: map<string, seq<Suggestion>>) {
    companyName.Some? && companyName.value != [] && CacheKey(companyName.value) !in cache
  }

  /**
   * `searchCompanies` on the request body field `company_name` (absent is
   * `None`) and the cache contents; returns the response and the new cache.
   */
  method SearchCompanies(companyName: Option<string>, cache: map<string, seq<Suggestion>>)
    returns (response: Response, newCache: map<string, seq<Suggestion>>)
    ensures companyName.None? || companyName.value == [] ==>
      response == BadRequest("Company name is required") && newCache == cache
    ensures companyName.Some? && companyName.value != [] && CacheKey(companyName.value) in cache ==>
      response == Suggestions(cache[CacheKey(companyName.value)]) && newCache == cache
    ensures IsMiss(companyName, cache) ==>
      response.Suggestions? && newCache == cache[CacheKey(companyName.value) := response.list]
    ensures IsMiss(companyName, cache) ==>
      IsGuessList(companyName.value, KnownCompany(LookupName(companyName.value)), response.list)
  {
    if companyName.None? || companyName.value == [] {
      return BadRequest("Company name is required"), cache;
    }
    var name := companyName.value;
    var cacheKey := CacheKey(name);
    if cacheKey in cache {
      return Suggestions(cache[cacheKey]), cache;
    }
    var result := GuessCompanies(name, KnownCompany(LookupName(name)));
    newCache := cache[cacheKey := result];
    response := Suggestions(result);
  }

  /**
   * What a fresh answer for `name` is, given the table's entry `known` for
   * it: one or two entries with distinct domains and matching logo
   * addresses; first the table's entry or the primary guess; second, for a
   * name with whitespace, the abbreviation guess unless its domain repeats
   * the first.
   */
  predicate IsGuessList(name: string, known: Option<Known>, r: seq<Suggestion>) {
    && 1 <= |r| <= 2
    && DistinctDomains(r)
    && (forall k :: 0 <= k < |r| ==> LogoMatches(r[k]))
    && r[0] == FirstGuessOf(name, known)
    && (|r| == 2 <==> Text.HasSpace(name) && Alternative(name).domain != FirstGuessOf(name, known).domain)
    && (|r| == 2 ==> r[1] == Alternative(name))
  }

  /**
   * The suggestion list built when the cache has no answer; `known` is
   * `knownCompanies[lowerName]`, looked up by the caller.
   */
  method GuessCompanies(name: string, known: Option<Known>) returns (result: seq<Suggestion>)
    ensures IsGuessList(name, known, result)
  {
    var companies: seq<Suggestion> := [];
    companies := companies + [Primary(name)];
    var words := Words(name);
    if |words| > 1 {
      companies := companies + [Alternative(name)];
    }
    ghost var alternatives := companies[1..];
    assert companies == [Primary(name)] + alternatives;
    if known.Some? {
      Seqs.UpdateHead(Primary(name), alternatives, FromKnown(known.value));
      companies := companies[0 := FromKnown(known.value)];
    }
    assert companies == [FirstGuessOf(name, known)] + alternatives;
    SeveralWordsIffSpace(name);
    GuessListShape(name, known, alternatives);

    var uniqueCompanies := DedupByDomain(companies);
    result := Seqs.Take(uniqueCompanies, 3);
  }

  /** The de-duplicated, truncated list of the first guess and the alternatives is a guess list. */
  lemma GuessListShape(name: string, known: Option<Known>, alternatives: seq<Suggestion>)
    requires alternatives == if Text.HasSpace(name) then [Alternative(name)] else []
    ensures IsGuessList(name, known, Seqs.Take(DedupByDomain([FirstGuessOf(name, known)] + alternatives), 3))
  {
    var first := FirstGuessOf(name, known);
    var unique := DedupByDomain([first] + alternatives);
    DedupGuesses(first, alternatives, Alternative(name));
    Seqs.TakeAll(unique, 3);
    assert LogoMatches(first) && LogoMatches(Alternative(name));
  }

  /** The shape of the de-duplicated list: the first guess, then the alternative unless it repeats the domain. */
  lemma DedupGuesses(first: Suggestion, alternatives: seq<Suggestion>, alt: Suggestion)
    requires alternatives == [] || alternatives == [alt]
    ensures 1 <= |DedupByDomain([first] + alternatives)| <= 2
    ensures DistinctDomains(DedupByDomain([first] + alternatives))
    ensures forall k :: 0 <= k < |DedupByDomain([first] + alternatives)| ==>
      DedupByDomain([first] + alternatives)[k] in {first, alt}
    ensures DedupByDomain([first] + alternatives)[0] == first
    ensures |DedupByDomain([first] + alternatives)| == 2 <==> alternatives != [] && alt.domain != first.domain
    ensures |DedupByDomain([first] + alternatives)| == 2 ==> DedupByDomain([first] + alternatives)[1] == alt
  {
    DedupSmall(first, alt);
    if alternatives == [] {
      assert [first] + alternatives == [first];
    } else {
      assert [first] + alternatives == [first, alt];
    }
  }

  // ------------------------------------------------------------ consequences

  /** A name of whitespace only passes the emptiness check and yields the single domain `.com`. */
  lemma BlankNameGuessesDotCom(name: string)
    requires name != [] && forall k :: 0 <= k < |name| ==> Text.IsSpace(name[k])
    ensures KnownCompany(LookupName(name)) == None
    ensures FirstGuess(name).domain == ".com"
    ensures Alternative(name).domain == ".com"
  {
    var l := Text.ToLower(name);
    BlankLowered(name);
    BlankSanitizes(l);
    NoEmptyKnownName();
    BlankInitials(l);
  }

  /** The table has no entry for the empty name. */
  lemma NoEmptyKnownName()
    ensures KnownCompany([]) == None
  {
    assert forall k :: 0 <= k < |KnownCompanies| ==> |KnownCompanies[k].0| > 0;
    LookupMissing(KnownCompanies, []);
  }

  /** Lowercasing keeps a whitespace-only name whitespace-only, and trimming it leaves nothing. */
  lemma BlankLowered(name: string)
    requires forall k :: 0 <= k < |name| ==> Text.IsSpace(name[k])
    ensures forall k :: 0 <= k < |Text.ToLower(name)| ==> Text.IsSpace(Text.ToLower(name)[k])
    ensures LookupName(name) == []
  {
    var l := Text.ToLower(name);
    forall k | 0 <= k < |l| ensures Text.IsSpace(l[k]) {
      Text.LowerKeepsSpace(name[k]);
    }
  }

  /** Nothing of a whitespace-only string survives sanitising. */
  lemma BlankSanitizes(l: string)
    requires forall k :: 0 <= k < |l| ==> Text.IsSpace(l[k])
    ensures Seqs.Filter(IsSanitizedChar, l) == []
  {
    Seqs.FilterMembership(IsSanitizedChar, l);
    assert forall c :: c in l ==> !IsSanitizedChar(c);
  }

  /** The words of a whitespace-only string are all empty. */
  lemma {:induction false} BlankInitials(s: string)
    requires forall k :: 0 <= k < |s| ==> Text.IsSpace(s[k])
    ensures Initials(Text.SplitWhitespace(s)) == []
    decreases |s|
  {
    var i := Text.IndexOfSpace(s);
    if s == [] {
      assert Text.SplitWhitespace(s) == [s];
    } else {
      assert i == 0;
      var rest := Text.TrimStart(s[i..]);
      assert rest == [];
      assert Text.SplitWhitespace(s) == [[]] + Text.SplitWhitespace(rest);
      BlankInitials(rest);
    }
  }

  /**
   * Trailing whitespace makes a one-word name look like several words: the
   * split ends in an empty word, so a second guess made of the first letter
   * alone is added (for `"Google "`: `google.com` from the table and `g.com`).
   */
  lemma TrailingSpaceAddsGuess(w: string, t: string)
    requires w != [] && !Text.HasSpace(w)
    requires t != [] && forall k :: 0 <= k < |t| ==> Text.IsSpace(t[k])
    ensures Text.HasSpace(w + t)
    ensures Words(w + t) == [Text.ToLower(w), []]
    ensures Alternative(w + t).domain == [Text.LowerChar(w[0])] + ".com"
  {
    assert Text.HasSpace(w + t) by {
      assert (w + t)[|w|] == t[0];
    }
    var lw := Text.ToLower(w);
    assert Words(w + t) == [lw, []] by {
      WordThenSpacesWords(w, t);
    }
    InitialsOfWordAndEmpty(lw);
  }

  lemma InitialsOfWordAndEmpty(lw: string)
    requires lw != []
    ensures Initials([lw, []]) == [lw[0]]
  {
    assert [lw, []][1..] == [[]];
    assert Initials([[]]) == [];
  }

  /**
   * An ordinary two-word name, such as `"Goldman Sachs"`: the words are the two
   * lowercased halves and the second guess is their initials (`gs.com`).
   */
  lemma TwoWordName(a: string, b: string)
    requires a != [] && !Text.HasSpace(a)
    requires b != [] && !Text.HasSpace(b)
    ensures Words(a + " " + b) == [Text.ToLower(a), Text.ToLower(b)]
    ensures Alternative(a + " " + b).domain == [Text.LowerChar(a[0]), Text.LowerChar(b[0])] + ".com"
  {
    var la, lb := Text.ToLower(a), Text.ToLower(b);
    var name := a + " " + b;
    assert Words(name) == [la, lb] by {
      SplitTwoWords(a, b);
    }
    InitialsOfTwo(la, lb);
  }

  lemma InitialsOfTwo(x: string, y: string)
    requires x != [] && y != []
    ensures Initials([x, y]) == [x[0], y[0]]
  {
    var none: seq<string> := [];
    assert [x, y][1..] == [y] && [y][1..] == none;
  }

  lemma SplitTwoWords(a: string, b: string)
    requires a != [] && !Text.HasSpace(a)
    requires b != [] && !Text.HasSpace(b)
    ensures Text.SplitWhitespace(Text.ToLower(a + " " + b)) == [Text.ToLower(a), Text.ToLower(b)]
  {
    var la, lb := Text.ToLower(a), Text.ToLower(b);
    assert Text.ToLower(a + " " + b) == la + " " + lb by {
      Text.ToLowerAppend(a + " ", b);
      Text.ToLowerAppend(a, " ");
    }
    Text.HasSpaceToLower(a);
    Text.HasSpaceToLower(b);
    Text.SplitAfterWord(la, " ", lb);
  }

  lemma WordThenSpacesWords(w: string, t: string)
    requires !Text.HasSpace(w)
    requires t != [] && forall k :: 0 <= k < |t| ==> Text.IsSpace(t[k])
    ensures Words(w + t) == [Text.ToLower(w), []]
  {
    var lw := Text.ToLower(w);
    var lt := Text.ToLower(t);
    Text.ToLowerAppend(w, t);
    forall k | 0 <= k < |lw| ensures !Text.IsSpace(lw[k]) {
      Text.LowerKeepsSpace(w[k]);
    }
    forall k | 0 <= k < |lt| ensures Text.IsSpace(lt[k]) {
      Text.LowerKeepsSpace(t[k]);
    }
    SplitWordThenSpaces(lw, lt);
  }

  /** A word followed by whitespace splits into the word and an empty word. */
  lemma SplitWordThenSpaces(a: string, b: string)
    requires forall k :: 0 <= k < |a| ==> !Text.IsSpace(a[k])
    requires b != [] && forall k :: 0 <= k < |b| ==> Text.IsSpace(b[k])
    ensures Text.SplitWhitespace(a + b) == [a, []]
  {
    var s := a + b;
    Text.IndexOfSpaceAfter(a, b);
    Text.SplitWhitespaceAt(s, |a|);
    assert s[..|a|] == a && s[|a|..] == b;
    Text.TrimStartBlank(b);
    assert Text.SplitWhitespace([]) == [[]];
  }
}
