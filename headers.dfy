/** Lines 99-101 of etl/02_transform_to_parquet.py: every header is trimmed
    and lower-cased, then renamed through the fixed alias table. */
module Headers {
  import opened Text
  import opened Tables

  /** The fixed alias table: lower-case, trimmed source header to canonical
      column name. */
  const Aliases: map<string, string> := map[
    "provider id" := "PROVNUM",
    "provider number" := "PROVNUM",
    "federal provider number" := "PROVNUM",
    "cms certification number (ccn)" := "PROVNUM",
    "ccn" := "PROVNUM",
    "provider ccn" := "PROVNUM",
    "ccn number" := "PROVNUM",
    "provider name" := "PROVNAME",
    "facility name" := "PROVNAME",
    "provider state" := "STATE",
    "state" := "STATE",
    "processing date" := "PROCESSING_DATE",
    "reported rn staffing hours per resident per day" := "RN_HPRD",
    "reported lpn staffing hours per resident per day" := "LPN_HPRD",
    "reported nurse aide staffing hours per resident per day" := "CNA_HPRD",
    "case-mix rn staffing hours per resident per day" := "RN_HPRD_ADJ",
    "case-mix lpn staffing hours per resident per day" := "LPN_HPRD_ADJ",
    "case-mix nurse aide staffing hours per resident per day" := "CNA_HPRD_ADJ"]

  /** One header after `c.strip().lower()` and the alias rename. */
  function CanonicalHeader(h: string): string {
    var k := Lower(Strip(h));
    if k in Aliases then Aliases[k] else k
  }

  function CanonicalHeaders(hs: seq<string>): (r: seq<string>)
    ensures |r| == |hs| && forall i :: 0 <= i < |hs| ==> r[i] == CanonicalHeader(hs[i])
  {
    seq(|hs|, i requires 0 <= i < |hs| => CanonicalHeader(hs[i]))
  }

  /** Assigning a new header list: the i-th column keeps its cells under the
      i-th new name. */
  function RenameAll(t: Table, newNames: seq<string>): (r: Table)
    requires WellFormed(t) && |newNames| == |t.names| && Distinct(newNames)
    ensures WellFormed(r) && r.rows == t.rows && r.names == newNames
    ensures forall i :: 0 <= i < |newNames| ==> r.cols[newNames[i]] == t.cols[t.names[i]]
  {
    assert newNames[..|newNames|] == newNames;
    Table(newNames, RenamedColumns(t, newNames, |newNames|), t.rows)
  }

  /** The columns of the first k headers, under their new names. */
  function RenamedColumns(t: Table, newNames: seq<string>, k: nat): (cols: map<string, seq<Cell>>)
    requires WellFormed(t) && |newNames| == |t.names| && Distinct(newNames) && k <= |newNames|
    ensures forall i :: 0 <= i < k ==> newNames[i] in cols && cols[newNames[i]] == t.cols[t.names[i]]
    ensures forall n :: n in cols ==> n in newNames[..k] && |cols[n]| == t.rows
  {
    if k == 0 then map[]
    else
      var cols := RenamedColumns(t, newNames, k - 1);
      assert newNames[..k] == newNames[..k - 1] + [newNames[k - 1]];
      assert t.names[k - 1] in t.cols;
      cols[newNames[k - 1] := t.cols[t.names[k - 1]]]
  }

  /** Lines 100-101. Two headers that would end up with the same name would
      leave pandas holding a duplicate column, which the model excludes. */
  function Canonicalise(t: Table): (r: Table)
    requires WellFormed(t) && Distinct(CanonicalHeaders(t.names))
    ensures WellFormed(r) && r.rows == t.rows
    ensures |r.names| == |t.names|
    ensures forall i :: 0 <= i < |t.names| ==>
              r.names[i] == CanonicalHeader(t.names[i]) && r.cols[r.names[i]] == t.cols[t.names[i]]
  {
    RenameAll(t, CanonicalHeaders(t.names))
  }

  /** The header after line 100 is the input header, each name made
      canonical, in the same order. */
  lemma CanonicaliseNames(t: Table)
    requires WellFormed(t) && Distinct(CanonicalHeaders(t.names))
    ensures Canonicalise(t).names == CanonicalHeaders(t.names)
    ensures Distinct(Canonicalise(t).names)
  {
    var r := Canonicalise(t);
    assert forall i :: 0 <= i < |t.names| ==> r.names[i] == CanonicalHeaders(t.names)[i];
  }

  lemma CanonicalisePreservesText(t: Table)
    requires WellFormed(t) && Distinct(CanonicalHeaders(t.names)) && AllText(t)
    ensures AllText(Canonicalise(t))
  {
    var r := Canonicalise(t);
    forall n | n in r.cols ensures IsText(r.cols[n]) {
      var i :| 0 <= i < |r.names| && r.names[i] == n;
    }
  }

  predicate HasUpperLetter(s: string) {
    exists i :: 0 <= i < |s| && IsUpperLetter(s[i])
  }

  lemma LowerHasNoUpper(s: string)
    ensures !HasUpperLetter(Lower(s))
  {
  }

  lemma AliasTargetsHaveUpper(k: string)
    requires k in Aliases
    ensures HasUpperLetter(Aliases[k])
  {
    assert IsUpperLetter(Aliases[k][0]);
  }

  /** A header is renamed to a canonical name exactly when its trimmed,
      lower-cased form is one of that name's aliases; no other header can
      end up with that name. */
  lemma RecognisedExactlyViaAlias(h: string, k: string)
    requires k in Aliases
    ensures CanonicalHeader(h) == Aliases[k]
            <==> (Lower(Strip(h)) in Aliases && Aliases[Lower(Strip(h))] == Aliases[k])
  {
    var l := Lower(Strip(h));
    if l !in Aliases {
      LowerHasNoUpper(Strip(h));
      AliasTargetsHaveUpper(k);
    }
  }

  lemma LowerIdempotent(s: string)
    ensures Lower(Lower(s)) == Lower(s)
  {
  }

  lemma PassedThrough(h: string, k: string)
    requires Lower(Strip(h)) == k && k !in Aliases
    ensures CanonicalHeader(h) == k
  {
  }

  /** Trimming and lower-casing a string that is already trimmed and lower
      case gives it back. */
  lemma TrimmedLowerIsFixed(s: string)
    ensures Lower(Strip(Lower(Strip(s)))) == Lower(Strip(s))
  {
    var l := Lower(Strip(s));
    if l != [] {
      assert !IsSpace(l[0]) && !IsSpace(l[|l| - 1]);
    }
    StripUnique([], l, []);
    assert [] + l + [] == l;
    LowerIdempotent(Strip(s));
  }

  /** An unknown header is passed through trimmed and lower-cased, and
      passing it through again changes nothing. */
  lemma UnknownHeaderIsStable(h: string)
    requires Lower(Strip(h)) !in Aliases
    ensures CanonicalHeader(h) == Lower(Strip(h))
    ensures CanonicalHeader(CanonicalHeader(h)) == CanonicalHeader(h)
  {
    var l := Lower(Strip(h));
    PassedThrough(h, l);
    TrimmedLowerIsFixed(h);
    PassedThrough(l, l);
  }

  /** A name made of letters and underscores has nothing to trim. */
  lemma NothingToStrip(s: string)
    requires forall i :: 0 <= i < |s| ==> IsLetter(s[i]) || s[i] == '_'
    ensures Strip(s) == s
  {
    if s != [] {
      assert !IsSpace(s[0]) && !IsSpace(s[|s| - 1]);
    }
    StripUnique([], s, []);
    assert [] + s + [] == s;
  }

  /** A header already spelled `PROVNUM` is lower-cased and so no longer
      recognised. */
  lemma CanonicalSpellingIsNotKept()
    ensures CanonicalHeader("PROVNUM") == "provnum"
  {
    NothingToStrip("PROVNUM");
    LowerOfProvNum();
    ProvNumIsNoAlias();
  }

  lemma LowerOfProvNum()
    ensures Lower("PROVNUM") == "provnum"
  {
  }

  lemma ProvNumIsNoAlias()
    ensures "provnum" !in Aliases
  {
  }

  /** `STATE` is the one canonical name whose lower-case form is itself an
      alias, so it survives. */
  lemma StateSpellingIsKept()
    ensures CanonicalHeader("STATE") == "STATE"
  {
    NothingToStrip("STATE");
    LowerOfState();
    StateIsAlias();
  }

  lemma LowerOfState()
    ensures Lower("STATE") == "state"
  {
  }

  lemma StateIsAlias()
    ensures "state" in Aliases && Aliases["state"] == "STATE"
  {
  }
}
