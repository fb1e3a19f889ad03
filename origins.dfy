/**
 * _get_allowed_origins and the CORS mode create_app picks from its result.
 * The ALLOWED_ORIGINS environment value is a parameter (os.environ.get
 * with default "": an unset variable reads as the empty string).
 */
module Origins {
  import opened Wrappers
  import opened Text

  /** What the parser can hand out as one origin. */
  predicate WellFormedOrigin(o: string)
  {
    o != [] && NoEdgeSpace(o) && ',' !in o
  }

  /** Stripping never brings in a character that was not there. */
  lemma StripKeepsOut(s: string, c: char)
    ensures c !in s ==> c !in Strip(s)
  {
  }

  /** What the comprehension keeps of one piece: its strip, unless that is empty. */
  function Kept(p: string): (r: seq<string>)
    ensures |r| <= 1
    ensures forall k :: 0 <= k < |r| ==> r[k] == Strip(p) && r[k] != []
    ensures r == [] <==> AllSpace(p)
  {
    if Strip(p) == [] then [] else [Strip(p)]
  }

  /** f applied to each element, the results concatenated in order. */
  function FlatMap<T, U>(f: T -> seq<U>, xs: seq<T>): seq<U>
    decreases |xs|
  {
    if xs == [] then [] else f(xs[0]) + FlatMap(f, xs[1..])
  }

  lemma {:induction false} FlatMapAppend<T, U>(f: T -> seq<U>, a: seq<T>, b: seq<T>)
    ensures FlatMap(f, a + b) == FlatMap(f, a) + FlatMap(f, b)
    decreases |a|
  {
    if a == [] {
      assert a + b == b;
    } else {
      FlatMapAppend(f, a[1..], b);
      assert (a + b)[0] == a[0] && (a + b)[1..] == a[1..] + b;
    }
  }

  /** FlatMap is no longer than its input when f gives at most one element. */
  lemma {:induction false} FlatMapLength<T, U>(f: T -> seq<U>, xs: seq<T>)
    requires forall x :: |f(x)| <= 1
    ensures |FlatMap(f, xs)| <= |xs|
    decreases |xs|
  {
    if xs != [] {
      FlatMapLength(f, xs[1..]);
    }
  }

  /** Every element of FlatMap(f, xs) comes from f of some element of xs. */
  lemma {:induction false} FlatMapOrigin<T, U>(f: T -> seq<U>, xs: seq<T>, k: nat)
    requires k < |FlatMap(f, xs)|
    ensures exists j :: 0 <= j < |xs| && FlatMap(f, xs)[k] in f(xs[j])
    decreases |xs|
  {
    var h := f(xs[0]);
    if k < |h| {
      assert FlatMap(f, xs)[k] == h[k];
    } else {
      FlatMapOrigin(f, xs[1..], k - |h|);
      var j :| 0 <= j < |xs[1..]| && FlatMap(f, xs[1..])[k - |h|] in f(xs[1..][j]);
      assert FlatMap(f, xs)[k] == FlatMap(f, xs[1..])[k - |h|];
      assert xs[1..][j] == xs[j + 1];
    }
  }

  /** The list comprehension [p.strip() for p in pieces if p.strip()]. */
  function StrippedNonBlank(pieces: seq<string>): (r: seq<string>)
    ensures |r| <= |pieces|
  {
    FlatMapLength(Kept, pieces);
    FlatMap(Kept, pieces)
  }

  /** The comprehension keeps the input order: it distributes over concatenation. */
  lemma StrippedNonBlankAppend(a: seq<string>, b: seq<string>)
    ensures StrippedNonBlank(a + b) == StrippedNonBlank(a) + StrippedNonBlank(b)
  {
    FlatMapAppend(Kept, a, b);
  }

  /** At most one entry per piece, each the non-empty strip of one piece. */
  lemma StrippedNonBlankEntries(pieces: seq<string>)
    ensures var r := StrippedNonBlank(pieces);
      |r| <= |pieces| && forall k :: 0 <= k < |r| ==> exists j :: 0 <= j < |pieces| && r[k] == Strip(pieces[j]) && r[k] != []
  {
    FlatMapLength(Kept, pieces);
    var r := StrippedNonBlank(pieces);
    forall k | 0 <= k < |r|
      ensures exists j :: 0 <= j < |pieces| && r[k] == Strip(pieces[j]) && r[k] != []
    {
      FlatMapOrigin(Kept, pieces, k);
    }
  }

  /** Nothing survives exactly when every piece is blank. */
  lemma {:induction false} StrippedNonBlankEmpty(pieces: seq<string>)
    ensures StrippedNonBlank(pieces) == [] <==> forall k :: 0 <= k < |pieces| ==> AllSpace(pieces[k])
    decreases |pieces|
  {
    if pieces != [] {
      StrippedNonBlankEmpty(pieces[1..]);
      assert StrippedNonBlank(pieces) == Kept(pieces[0]) + StrippedNonBlank(pieces[1..]);
      assert forall k :: 1 <= k < |pieces| ==> pieces[k] == pieces[1..][k - 1];
    }
  }

  /** Pieces without commas give entries without commas. */
  lemma StrippedNonBlankCommaFree(pieces: seq<string>)
    requires forall k :: 0 <= k < |pieces| ==> ',' !in pieces[k]
    ensures forall k :: 0 <= k < |StrippedNonBlank(pieces)| ==> ',' !in StrippedNonBlank(pieces)[k]
  {
    StrippedNonBlankEntries(pieces);
    forall j | 0 <= j < |pieces| ensures ',' !in Strip(pieces[j]) {
      StripKeepsOut(pieces[j], ',');
    }
  }

  /** _get_allowed_origins: None for a blank value, else the stripped, non-empty comma-separated entries. */
  function GetAllowedOrigins(raw: string): (allowed: Option<seq<string>>)
    ensures allowed.None? <==> AllSpace(raw)
    ensures allowed.Some? ==> forall k :: 0 <= k < |allowed.value| ==> WellFormedOrigin(allowed.value[k])
  {
    var stripped := Strip(raw);
    StrippedNonBlankEntries(Split(stripped, ','));
    StrippedNonBlankCommaFree(Split(stripped, ','));
    if stripped == [] then None else Some(StrippedNonBlank(Split(stripped, ',')))
  }

  /** A strip holds no more copies of a character than the string it came from. */
  lemma StripCount(s: string, c: char)
    ensures multiset(Strip(s))[c] <= multiset(s)[c]
  {
    var r := Strip(s);
    var i := SpaceBefore(s);
    assert r == s[i..i + |r|];
    assert s == s[..i] + r + s[i + |r|..];
    assert multiset(s) == multiset(s[..i]) + multiset(r) + multiset(s[i + |r|..]);
  }

  /** There are never more entries than commas plus one. */
  lemma {:induction false} AllowedOriginsCount(raw: string)
    requires GetAllowedOrigins(raw).Some?
    ensures |GetAllowedOrigins(raw).value| <= multiset(raw)[','] + 1
  {
    var r := Strip(raw);
    SplitCount(r, ',');
    StrippedNonBlankEntries(Split(r, ','));
    StripCount(raw, ',');
  }

  /** Each entry of a well-formed list is its own strip, so the comprehension keeps the list. */
  lemma {:induction false} StrippedNonBlankWellFormed(origins: seq<string>)
    requires forall k :: 0 <= k < |origins| ==> WellFormedOrigin(origins[k])
    ensures StrippedNonBlank(origins) == origins
    decreases |origins|
  {
    if origins != [] {
      StripNoEdgeSpace(origins[0]);
      StrippedNonBlankWellFormed(origins[1..]);
      assert origins == [origins[0]] + origins[1..];
    }
  }

  /**
   * Writing a list of well-formed origins as ALLOWED_ORIGINS gives the list
   * back in its order; the empty list reads as "no restriction".
   */
  lemma AllowedOriginsRoundTrip(origins: seq<string>)
    requires forall k :: 0 <= k < |origins| ==> WellFormedOrigin(origins[k])
    ensures GetAllowedOrigins(Join(origins, ',')) == if origins == [] then None else Some(origins)
  {
    if origins != [] {
      var raw := Join(origins, ',');
      JoinFirst(origins, ',');
      JoinLast(origins, ',');
      StripNoEdgeSpace(raw);
      SplitJoin(origins, ',');
      StrippedNonBlankWellFormed(origins);
    }
  }

  /** A character other than whitespace and commas makes something survive the comma split. */
  lemma {:induction false} ContentSurvives(s: string, m: nat)
    requires m < |s| && !IsSpace(s[m]) && s[m] != ','
    ensures StrippedNonBlank(Split(s, ',')) != []
  {
    var pieces := Split(s, ',');
    JoinSplit(s, ',');
    JoinCharFromPiece(pieces, ',', m);
    var k :| 0 <= k < |pieces| && s[m] in pieces[k];
    var j :| 0 <= j < |pieces[k]| && pieces[k][j] == s[m];
    assert !AllSpace(pieces[k]);
    StrippedNonBlankEmpty(pieces);
  }

  /** A character other than whitespace and commas survives into the list. */
  lemma {:induction false} ContentGivesOrigin(raw: string, i: nat)
    requires i < |raw| && !IsSpace(raw[i]) && raw[i] != ','
    ensures GetAllowedOrigins(raw).Some? && GetAllowedOrigins(raw).value != []
  {
    var stripped := Strip(raw);
    var m := i - SpaceBefore(raw);
    StripCharAt(raw, m);
    ContentSurvives(stripped, m);
  }

  /** A non-blank piece of the comma split holds a character of the string other than whitespace and commas. */
  lemma PieceContent(s: string, k: nat, j: nat)
    requires k < |Split(s, ',')| && j < |Split(s, ',')[k]| && !IsSpace(Split(s, ',')[k][j])
    ensures exists m :: 0 <= m < |s| && !IsSpace(s[m]) && s[m] != ','
  {
    var c := Split(s, ',')[k][j];
    SplitPieceChar(s, ',', k, j);
    var m :| 0 <= m < |s| && s[m] == c;
  }

  /** Something survives the comma split only if the string holds a character other than whitespace and commas. */
  lemma {:induction false} SurvivorHasContent(s: string)
    requires StrippedNonBlank(Split(s, ',')) != []
    ensures exists m :: 0 <= m < |s| && !IsSpace(s[m]) && s[m] != ','
  {
    StrippedNonBlankEmpty(Split(s, ','));
    var k :| 0 <= k < |Split(s, ',')| && !AllSpace(Split(s, ',')[k]);
    var j :| 0 <= j < |Split(s, ',')[k]| && !IsSpace(Split(s, ',')[k][j]);
    PieceContent(s, k, j);
  }

  /**
   * A character of the strip is a character of the raw string, shifted past the
   * leading whitespace: Strip's own contract at one index, stated on its own so
   * that its callers need not instantiate Strip's quantifier.
   */
  lemma StripCharAt(raw: string, m: nat)
    requires m < |Strip(raw)|
    ensures SpaceBefore(raw) + m < |raw| && raw[SpaceBefore(raw) + m] == Strip(raw)[m]
  {
  }

  /** An entry in the list comes from a character of raw other than whitespace and commas. */
  lemma {:induction false} OriginGivesContent(raw: string)
    requires GetAllowedOrigins(raw).Some? && GetAllowedOrigins(raw).value != []
    ensures exists i :: 0 <= i < |raw| && !IsSpace(raw[i]) && raw[i] != ','
  {
    var stripped := Strip(raw);
    assert StrippedNonBlank(Split(stripped, ',')) != [];
    SurvivorHasContent(stripped);
    var m :| 0 <= m < |stripped| && !IsSpace(stripped[m]) && stripped[m] != ',';
    StripCharAt(raw, m);
    var i := SpaceBefore(raw) + m;
    assert !IsSpace(raw[i]) && raw[i] != ',';
  }

  /** The list is non-empty exactly when ALLOWED_ORIGINS holds a character other than whitespace and commas. */
  lemma AllowedOriginsNonEmptyIff(raw: string)
    ensures (GetAllowedOrigins(raw).Some? && GetAllowedOrigins(raw).value != [])
        <==> exists i :: 0 <= i < |raw| && !IsSpace(raw[i]) && raw[i] != ','
  {
    if i :| 0 <= i < |raw| && !IsSpace(raw[i]) && raw[i] != ',' {
      ContentGivesOrigin(raw, i);
    }
    if GetAllowedOrigins(raw).Some? && GetAllowedOrigins(raw).value != [] {
      OriginGivesContent(raw);
    }
  }

  /** A non-blank value made only of commas and whitespace yields the empty list, not None. */
  lemma OnlyCommasGiveEmptyList(raw: string)
    requires ',' in raw
    requires forall i :: 0 <= i < |raw| ==> raw[i] == ',' || IsSpace(raw[i])
    ensures GetAllowedOrigins(raw) == Some([])
  {
    AllowedOriginsNonEmptyIff(raw);
    var i :| 0 <= i < |raw| && raw[i] == ',';
    assert !IsSpace(raw[i]);
  }

  /** The two ways create_app configures CORS. */
  datatype CorsPolicy = AnyOrigin | OnlyOrigins(origins: seq<string>)

  /** `if allowed:` in create_app: restrict only for a non-empty list; None and [] both allow any origin. */
  function ChooseCorsPolicy(allowed: Option<seq<string>>): (policy: CorsPolicy)
    ensures policy.OnlyOrigins? <==> allowed.Some? && allowed.value != []
    ensures policy.OnlyOrigins? ==> allowed == Some(policy.origins)
  {
    if allowed.Some? && allowed.value != [] then OnlyOrigins(allowed.value) else AnyOrigin
  }

  /**
   * The policy the app starts with: origins are restricted exactly when
   * ALLOWED_ORIGINS holds something other than whitespace and commas, and
   * then to exactly the parsed list, which is non-empty and well-formed.
   */
  function CorsPolicyFor(raw: string): (policy: CorsPolicy)
    ensures policy.OnlyOrigins? <==> exists i :: 0 <= i < |raw| && !IsSpace(raw[i]) && raw[i] != ','
    ensures policy.OnlyOrigins? ==> GetAllowedOrigins(raw) == Some(policy.origins)
    ensures policy.AnyOrigin? ==> GetAllowedOrigins(raw) == None || GetAllowedOrigins(raw) == Some([])
    ensures policy.OnlyOrigins? ==>
      policy.origins != [] && forall k :: 0 <= k < |policy.origins| ==> WellFormedOrigin(policy.origins[k])
  {
    AllowedOriginsNonEmptyIff(raw);
    ChooseCorsPolicy(GetAllowedOrigins(raw))
  }
}
