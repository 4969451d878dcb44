/** The three java.lang.String operations the customer ingestion relies on:
    `trim`, `toLowerCase` (restricted to ASCII letters) and `split(",")`,
    including Java's removal of trailing empty fields. */
module JavaString {

  // ---------------------------------------------------------------------------
  // trim
  // ---------------------------------------------------------------------------

  /** A character `String.trim` strips: any code point up to and including the space. */
  predicate IsBlank(c: char) {
    c <= ' '
  }

  ghost predicate AllBlank(s: string) {
    forall k :: 0 <= k < |s| ==> IsBlank(s[k])
  }

  /** Neither end of `s` is blank. */
  predicate Trimmed(s: string) {
    s == [] || (!IsBlank(s[0]) && !IsBlank(s[|s| - 1]))
  }

  /** `s` is `m` surrounded by blanks only. */
  ghost predicate Padded(s: string, a: string, m: string, b: string) {
    s == a + m + b && AllBlank(a) && AllBlank(b)
  }

  /** How far the first loop of `trim` advances from the start. */
  function LeadingBlanks(s: string): (n: nat)
    ensures n <= |s|
  {
    if s == [] || !IsBlank(s[0]) then 0 else 1 + LeadingBlanks(s[1..])
  }

  /** The first loop of `trim` stops at the first non-blank. */
  lemma {:induction false} LeadingBlanksSpec(s: string)
    ensures forall k :: 0 <= k < LeadingBlanks(s) ==> IsBlank(s[k])
    ensures LeadingBlanks(s) < |s| ==> !IsBlank(s[LeadingBlanks(s)])
  {
    if s != [] && IsBlank(s[0]) {
      LeadingBlanksSpec(s[1..]);
      assert forall k :: 1 <= k < |s| ==> s[k] == s[1..][k - 1];
    }
  }

  /** How far the second loop of `trim` retreats from the end. */
  function TrailingBlanks(s: string): (n: nat)
    ensures n <= |s|
  {
    if s == [] || !IsBlank(s[|s| - 1]) then 0 else 1 + TrailingBlanks(s[..|s| - 1])
  }

  /** The second loop of `trim` stops at the last non-blank. */
  lemma {:induction false} TrailingBlanksSpec(s: string)
    ensures forall k :: |s| - TrailingBlanks(s) <= k < |s| ==> IsBlank(s[k])
    ensures TrailingBlanks(s) < |s| ==> !IsBlank(s[|s| - 1 - TrailingBlanks(s)])
  {
    if s != [] && IsBlank(s[|s| - 1]) {
      TrailingBlanksSpec(s[..|s| - 1]);
      assert forall k :: 0 <= k < |s| - 1 ==> s[k] == s[..|s| - 1][k];
    }
  }

  /** `String.trim`: the text with blanks removed from both ends. */
  function Trim(s: string): string {
    var st := LeadingBlanks(s);
    var t := s[st..];
    s[st..st + |t| - TrailingBlanks(t)]
  }

  /** What `trim` returns starts and ends with a non-blank, and only blanks surround it. */
  lemma TrimSpec(s: string)
    ensures Trimmed(Trim(s))
    ensures exists a, b :: Padded(s, a, Trim(s), b)
  {
    var st := LeadingBlanks(s);
    var t := s[st..];
    var tb := TrailingBlanks(t);
    var en := st + |t| - tb;
    assert Trim(s) == s[st..en];
    TrimCutsBlanks(s, st, t, tb, en);
    TrimCutsAround(s, st, t, tb, en);
    TrimKeepsEnds(s, st, t, tb, en);
    assert Padded(s, s[..st], s[st..en], s[en..]);
  }

  /** What the two loops of `trim` skip is blank. */
  lemma TrimCutsBlanks(s: string, st: nat, t: string, tb: nat, en: nat)
    requires st == LeadingBlanks(s) && t == s[st..] && tb == TrailingBlanks(t) && en == st + |t| - tb
    ensures AllBlank(s[..st]) && AllBlank(s[en..])
  {
    LeadingBlanksSpec(s);
    TrailingBlanksSpec(t);
    forall k | 0 <= k < |s| - en ensures IsBlank(s[en..][k]) {
      assert s[en..][k] == t[|t| - tb + k];
    }
  }

  lemma TrimCutsAround(s: string, st: nat, t: string, tb: nat, en: nat)
    requires st == LeadingBlanks(s) && t == s[st..] && tb == TrailingBlanks(t) && en == st + |t| - tb
    ensures st <= en <= |s|
    ensures s == s[..st] + s[st..en] + s[en..]
  {
    assert st <= en <= |s|;
    assert s[..st] + s[st..en] == s[..en];
    assert s[..en] + s[en..] == s;
  }

  /** What `trim` keeps starts and ends with a non-blank. */
  lemma TrimKeepsEnds(s: string, st: nat, t: string, tb: nat, en: nat)
    requires st == LeadingBlanks(s) && t == s[st..] && tb == TrailingBlanks(t) && en == st + |t| - tb
    ensures Trimmed(s[st..en])
  {
    LeadingBlanksSpec(s);
    TrailingBlanksSpec(t);
    if st < en {
      assert s[st..en][0] == s[st];
      assert s[st..en][en - st - 1] == t[|t| - 1 - tb];
    }
  }

  /** Trim is determined by its contract: whatever blanks surround a trimmed middle, trim returns that middle. */
  lemma TrimOf(a: string, m: string, b: string)
    requires AllBlank(a) && AllBlank(b) && Trimmed(m)
    ensures Trim(a + m + b) == m
  {
    var s := a + m + b;
    var st := LeadingBlanks(s);
    LeadingBlanksSpec(s);
    if m == [] {
      assert forall k :: 0 <= k < |s| ==> IsBlank(s[k]) by {
        forall k | 0 <= k < |s| ensures IsBlank(s[k]) {
          if k < |a| { assert s[k] == a[k]; } else { assert s[k] == b[k - |a|]; }
        }
      }
      assert st == |s|;
    } else {
      assert s[|a|] == m[0];
      assert st <= |a|;
      assert st == |a|;
      var t := s[st..];
      assert t == m + b;
      var tb := TrailingBlanks(t);
      TrailingBlanksSpec(t);
      assert t[|m| - 1] == m[|m| - 1];
      assert tb <= |b|;
      assert tb == |b|;
      assert t[..|t| - tb] == m;
    }
  }

  // ---------------------------------------------------------------------------
  // toLowerCase (ASCII)
  // ---------------------------------------------------------------------------

  predicate IsUpper(c: char) {
    'A' <= c <= 'Z'
  }

  predicate IsLower(c: char) {
    'a' <= c <= 'z'
  }

  function LowerChar(c: char): char {
    if IsUpper(c) then (c as int + 32) as char else c
  }

  function UpperChar(c: char): char {
    if IsLower(c) then (c as int - 32) as char else c
  }

  /** `String.toLowerCase` on ASCII: every upper-case letter becomes its lower-case form. */
  function ToLower(s: string): string {
    if s == [] then [] else [LowerChar(s[0])] + ToLower(s[1..])
  }

  /** Lower-casing keeps the length and maps each character on its own. */
  lemma {:induction false} ToLowerAt(s: string)
    ensures |ToLower(s)| == |s|
    ensures forall k :: 0 <= k < |s| ==> ToLower(s)[k] == LowerChar(s[k])
  {
    if s != [] {
      ToLowerAt(s[1..]);
      assert forall k :: 1 <= k < |s| ==> ToLower(s)[k] == ToLower(s[1..])[k - 1];
    }
  }

  predicate NoUpper(t: string) {
    forall k :: 0 <= k < |t| ==> !IsUpper(t[k])
  }

  /** Against a character that is not an upper-case letter, lower-casing matches the
      character itself or its upper-case form. */
  lemma LowerCharMatches(c: char, d: char)
    requires !IsUpper(d)
    ensures LowerChar(c) == d <==> c == d || c == UpperChar(d)
  {
  }

  /** `t == s.toLowerCase()` against a lower-case `t` is a case-insensitive comparison:
      each character of `s` is either the one of `t` or its upper-case form. */
  lemma ToLowerMatches(s: string, t: string)
    requires NoUpper(t)
    ensures ToLower(s) == t <==>
              |s| == |t| && forall k :: 0 <= k < |s| ==> s[k] == t[k] || s[k] == UpperChar(t[k])
  {
    ToLowerAt(s);
    if |s| == |t| {
      forall k | 0 <= k < |s| ensures ToLower(s)[k] == t[k] <==> s[k] == t[k] || s[k] == UpperChar(t[k]) {
        LowerCharMatches(s[k], t[k]);
      }
    }
  }

  /** Lower-casing twice is lower-casing once, and the result holds no upper-case letter. */
  lemma ToLowerIdempotent(s: string)
    ensures NoUpper(ToLower(s))
    ensures ToLower(ToLower(s)) == ToLower(s)
  {
    ToLowerAt(s);
    ToLowerAt(ToLower(s));
  }

  // ---------------------------------------------------------------------------
  // split(",")
  // ---------------------------------------------------------------------------

  /** Every field between commas, empty ones included (what `split` produces before
      it removes trailing empty strings). */
  function SplitAll(s: string): (r: seq<string>)
    ensures |r| >= 1
  {
    if s == [] then [""]
    else
      var rest := SplitAll(s[1..]);
      if s[0] == ',' then [""] + rest else [[s[0]] + rest[0]] + rest[1..]
  }

  /** The fields written back with commas between them. */
  function Join(fields: seq<string>): string
    requires |fields| >= 1
  {
    if |fields| == 1 then fields[0] else fields[0] + "," + Join(fields[1..])
  }

  predicate CommaFree(s: string) {
    ',' !in s
  }

  /** Joining the fields gives the text back, and no field holds a comma. */
  lemma {:induction false} JoinSplitAll(s: string)
    ensures Join(SplitAll(s)) == s
    ensures forall k :: 0 <= k < |SplitAll(s)| ==> CommaFree(SplitAll(s)[k])
  {
    if s != [] {
      var rest := SplitAll(s[1..]);
      JoinSplitAll(s[1..]);
      if s[0] == ',' {
        assert SplitAll(s) == [""] + rest;
        assert ([""] + rest)[1..] == rest;
        assert s == "," + s[1..];
      } else {
        var r := SplitAll(s);
        assert r == [[s[0]] + rest[0]] + rest[1..];
        if |rest| == 1 {
          assert s == [s[0]] + s[1..];
        } else {
          assert r[1..] == rest[1..];
          assert Join(rest) == rest[0] + "," + Join(rest[1..]);
          assert s == [s[0]] + s[1..];
        }
        forall k | 0 <= k < |r| ensures CommaFree(r[k]) {
          if k > 0 { assert r[k] == rest[k]; }
        }
      }
    }
  }

  /** A comma-free prefix extends the first field of what follows it. */
  lemma {:induction false} SplitAllPrefix(p: string, t: string)
    requires CommaFree(p)
    ensures SplitAll(p + t) == [p + SplitAll(t)[0]] + SplitAll(t)[1..]
  {
    if p != [] {
      assert (p + t)[0] == p[0];
      assert (p + t)[1..] == p[1..] + t;
      SplitAllPrefix(p[1..], t);
      assert [p[0]] + (p[1..] + SplitAll(t)[0]) == p + SplitAll(t)[0];
    } else {
      var r := SplitAll(t);
      assert p + t == t;
      assert p + r[0] == r[0];
      assert [r[0]] + r[1..] == r;
    }
  }

  /** Splitting comma-free fields joined by commas gives those fields back. */
  lemma {:induction false} SplitAllJoin(fields: seq<string>)
    requires |fields| >= 1
    requires forall k :: 0 <= k < |fields| ==> CommaFree(fields[k])
    ensures SplitAll(Join(fields)) == fields
  {
    if |fields| == 1 {
      SplitAllPrefix(fields[0], "");
      assert fields[0] + "" == fields[0];
    } else {
      var rest := Join(fields[1..]);
      SplitAllJoin(fields[1..]);
      assert Join(fields) == fields[0] + ("," + rest);
      SplitAllPrefix(fields[0], "," + rest);
      assert ("," + rest)[1..] == rest;
      assert SplitAll("," + rest) == [""] + fields[1..];
      assert fields[0] + "" == fields[0];
    }
  }

  /** The removal of empty strings at the end of the field list. */
  function DropTrailingEmpty(fields: seq<string>): (r: seq<string>)
    ensures |r| <= |fields| && r == fields[..|r|]
    ensures forall k :: |r| <= k < |fields| ==> fields[k] == ""
    ensures r == [] || r[|r| - 1] != ""
  {
    if fields == [] || fields[|fields| - 1] != "" then fields
    else DropTrailingEmpty(fields[..|fields| - 1])
  }

  /** `String.split(",")`: a text without a comma is its own single field (even the
      empty text); otherwise the fields between commas, less the empty ones at the end. */
  function Split(s: string): seq<string> {
    if ',' !in s then [s] else DropTrailingEmpty(SplitAll(s))
  }

  lemma JoinHasComma(fields: seq<string>)
    requires |fields| >= 2
    ensures ',' in Join(fields)
  {
    assert Join(fields)[|fields[0]|] == ',';
  }

  /** Round trip of a CSV row: comma-free fields written with commas split back into the
      same fields, provided the last one is not empty (or there is only one). */
  lemma SplitJoin(fields: seq<string>)
    requires |fields| >= 1
    requires forall k :: 0 <= k < |fields| ==> CommaFree(fields[k])
    requires |fields| == 1 || fields[|fields| - 1] != ""
    ensures Split(Join(fields)) == fields
  {
    SplitAllJoin(fields);
    if |fields| >= 2 {
      JoinHasComma(fields);
    }
  }

  /** A row whose last column is empty comes back shorter: `split` drops that column. */
  lemma SplitJoinDropsEmptyLast(fields: seq<string>)
    requires |fields| >= 2
    requires forall k :: 0 <= k < |fields| ==> CommaFree(fields[k])
    requires fields[|fields| - 1] == ""
    ensures |Split(Join(fields))| < |fields|
    ensures Split(Join(fields)) == fields[..|Split(Join(fields))|]
  {
    SplitAllJoin(fields);
    JoinHasComma(fields);
  }

  /** The fields `split` keeps are the leading fields between commas; it keeps more than
      `n` of them exactly when some field from position `n` on is not empty. */
  lemma SplitKeeps(s: string, n: nat)
    requires ',' in s
    ensures Split(s) == SplitAll(s)[..|Split(s)|]
    ensures |Split(s)| > n <==> exists j :: n <= j < |SplitAll(s)| && SplitAll(s)[j] != ""
  {
    var all := SplitAll(s);
    var r := Split(s);
    if |r| > n {
      assert r[|r| - 1] == all[|r| - 1];
    }
  }
}
