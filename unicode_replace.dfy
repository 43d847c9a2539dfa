/**
 * Making report text printable in a latin-1 font: subscript and superscript
 * digits and letters, the degree sign and the Greek lower-case letters are
 * spelled out in ASCII, a few chemical formulas are rewritten, and whatever
 * is still outside latin-1 is replaced by a question mark.
 */
module UnicodeReplace {
  import opened Wrappers

  /** The value handed to the replacement: text, or any other value, which is passed through. */
  datatype Arg<T> = Str(s: string) | Other(v: T)

  /** A table of single characters and the text each is replaced by. */
  type Replacements = seq<(char, string)>

  /** The replacement table, in the order its entries are applied. */
  const Table: Replacements := Subscripts + Superscripts + Degree + Greek

  /** Subscript digits and letters. */
  const Subscripts: Replacements := [
    ('\U{2080}', "0"),
    ('\U{2081}', "1"),
    ('\U{2082}', "2"),
    ('\U{2083}', "3"),
    ('\U{2084}', "4"),
    ('\U{2085}', "5"),
    ('\U{2086}', "6"),
    ('\U{2087}', "7"),
    ('\U{2088}', "8"),
    ('\U{2089}', "9"),
    ('\U{2090}', "a"),
    ('\U{2091}', "e"),
    ('\U{2092}', "o"),
    ('\U{2093}', "x"),
    ('\U{2095}', "h"),
    ('\U{2096}', "k"),
    ('\U{2097}', "l"),
    ('\U{2098}', "m"),
    ('\U{2099}', "n")
  ]

  /** Superscript digits, signs, parentheses and n. */
  const Superscripts: Replacements := [
    ('\U{00B2}', "2"),
    ('\U{00B3}', "3"),
    ('\U{2074}', "4"),
    ('\U{2075}', "5"),
    ('\U{2076}', "6"),
    ('\U{2077}', "7"),
    ('\U{2078}', "8"),
    ('\U{2079}', "9"),
    ('\U{207A}', "+"),
    ('\U{207B}', "-"),
    ('\U{207C}', "="),
    ('\U{207D}', "("),
    ('\U{207E}', ")"),
    ('\U{207F}', "n")
  ]

  /** The degree sign. */
  const Degree: Replacements := [
    ('\U{00B0}', "deg")
  ]

  /** The Greek lower-case letters, spelled out. */
  const Greek: Replacements := [
    ('\U{03B1}', "alpha"),
    ('\U{03B2}', "beta"),
    ('\U{03B3}', "gamma"),
    ('\U{03B4}', "delta"),
    ('\U{03B5}', "epsilon"),
    ('\U{03B6}', "zeta"),
    ('\U{03B7}', "eta"),
    ('\U{03B8}', "theta"),
    ('\U{03B9}', "iota"),
    ('\U{03BA}', "kappa"),
    ('\U{03BB}', "lambda"),
    ('\U{03BC}', "mu"),
    ('\U{03BD}', "nu"),
    ('\U{03BE}', "xi"),
    ('\U{03BF}', "omicron"),
    ('\U{03C0}', "pi"),
    ('\U{03C1}', "rho"),
    ('\U{03C2}', "final sigma"),
    ('\U{03C3}', "sigma"),
    ('\U{03C4}', "tau"),
    ('\U{03C5}', "upsilon"),
    ('\U{03C6}', "phi"),
    ('\U{03C7}', "chi"),
    ('\U{03C8}', "psi"),
    ('\U{03C9}', "omega")
  ]

  /** A character that latin-1 can encode. */
  predicate IsLatin1(c: char)
  {
    c as int <= 0xFF
  }

  predicate IsAscii(s: string)
  {
    forall i | 0 <= i < |s| :: s[i] as int < 0x80
  }

  /** Every replaced character lies outside ASCII and every replacement is ASCII. */
  ghost predicate AsciiOverHigh(t: Replacements)
  {
    forall i | 0 <= i < |t| :: t[i].0 as int >= 0x80 && IsAscii(t[i].1)
  }

  lemma AsciiOverHighConcat(t: Replacements, u: Replacements)
    requires AsciiOverHigh(t) && AsciiOverHigh(u)
    ensures AsciiOverHigh(t + u)
  {
    assert forall i | |t| <= i < |t + u| :: (t + u)[i] == u[i - |t|];
  }

  lemma SubscriptsAsciiOverHigh()
    ensures AsciiOverHigh(Subscripts)
  {
  }

  lemma SuperscriptsAsciiOverHigh()
    ensures AsciiOverHigh(Superscripts)
  {
  }

  lemma GreekAsciiOverHigh()
    ensures AsciiOverHigh(Greek)
  {
    forall i | 0 <= i < |Greek|
      ensures Greek[i].0 as int >= 0x80 && IsAscii(Greek[i].1)
    {
      assert 0x3B1 <= Greek[i].0 as int;
      assert |Greek[i].1| <= 11;
      forall j | 0 <= j < |Greek[i].1|
        ensures Greek[i].1[j] as int < 0x80
      {
      }
    }
  }

  lemma TableAsciiOverHigh()
    ensures AsciiOverHigh(Table)
  {
    SubscriptsAsciiOverHigh();
    SuperscriptsAsciiOverHigh();
    GreekAsciiOverHigh();
    AsciiOverHighConcat(Subscripts, Superscripts);
    AsciiOverHighConcat(Subscripts + Superscripts, Degree);
    AsciiOverHighConcat(Subscripts + Superscripts + Degree, Greek);
  }

  /** The replacement of the first entry of t for c, or None when t has no entry for c. */
  function Lookup(c: char, t: Replacements): Option<string>
  {
    if t == [] then None
    else if t[0].0 == c then Some(t[0].1)
    else Lookup(c, t[1..])
  }

  /** A replacement that is found comes from an entry for c. */
  lemma {:induction false} LookupFound(c: char, t: Replacements)
    requires Lookup(c, t).Some?
    ensures (c, Lookup(c, t).value) in t
  {
    if t[0].0 != c {
      LookupFound(c, t[1..]);
      assert t == [t[0]] + t[1..];
    }
  }

  /** A replacement is found exactly when t has an entry for c. */
  lemma {:induction false} LookupMissing(c: char, t: Replacements)
    ensures Lookup(c, t).None? <==> forall i | 0 <= i < |t| :: t[i].0 != c
  {
    if t != [] && t[0].0 != c {
      LookupMissing(c, t[1..]);
      assert forall i | 1 <= i < |t| :: t[i] == t[1..][i - 1];
    }
  }

  /** ASCII characters are never replaced by a table of non-ASCII characters. */
  lemma LookupAsciiNone(c: char, t: Replacements)
    requires AsciiOverHigh(t) && c as int < 0x80
    ensures Lookup(c, t).None?
  {
    LookupMissing(c, t);
  }

  /** c with the table applied: its replacement, or c itself. */
  function MapChar(c: char, t: Replacements): string
  {
    match Lookup(c, t)
    case Some(v) => v
    case None => [c]
  }

  /** s with every character replaced per t. */
  function MapChars(s: string, t: Replacements): string
  {
    if s == [] then [] else MapChar(s[0], t) + MapChars(s[1..], t)
  }

  /**
   * Python's str.replace: every occurrence of pat, scanning from the left and
   * without overlaps, replaced by rep.
   */
  function Replace(s: string, pat: string, rep: string): (r: string)
    requires |pat| > 0
    ensures |rep| <= |pat| ==> |r| <= |s|
    ensures |rep| >= |pat| ==> |r| >= |s|
  {
    if |s| < |pat| then s
    else if s[..|pat|] == pat then rep + Replace(s[|pat|..], pat, rep)
    else [s[0]] + Replace(s[1..], pat, rep)
  }

  /** The latin-1 encoding with errors='replace', decoded again: '?' for each unencodable character. */
  function Latin1Replace(s: string): (r: string)
    ensures |r| == |s|
  {
    if s == [] then [] else [if IsLatin1(s[0]) then s[0] else '?'] + Latin1Replace(s[1..])
  }

  predicate Latin1Encodable(s: string)
  {
    forall i | 0 <= i < |s| :: IsLatin1(s[i])
  }

  /**
   * The reference meaning of the whole replacement, one character at a time:
   * a character of the table becomes its ASCII spelling, any other latin-1
   * character stays, anything else becomes '?'.
   */
  function SanitizeChar(c: char, t: Replacements): string
  {
    match Lookup(c, t)
    case Some(v) => v
    case None => if IsLatin1(c) then [c] else "?"
  }

  function Sanitized(s: string, t: Replacements): string
  {
    if s == [] then [] else SanitizeChar(s[0], t) + Sanitized(s[1..], t)
  }

  // ---- str.replace ----

  lemma {:induction false} ReplaceCharConcat(a: string, b: string, k: char, v: string)
    ensures Replace(a + b, [k], v) == Replace(a, [k], v) + Replace(b, [k], v)
  {
    if a != [] {
      assert (a + b)[1..] == a[1..] + b;
      assert (a + b)[..1] == a[..1];
      ReplaceCharConcat(a[1..], b, k, v);
    } else {
      assert a + b == b;
    }
  }

  /** A pattern holding a character the text lacks leaves the text unchanged. */
  lemma {:induction false} ReplaceAbsent(s: string, pat: string, rep: string, x: char)
    requires |pat| > 0 && x in pat && x !in s
    ensures Replace(s, pat, rep) == s
  {
    if |s| >= |pat| {
      assert x !in s[..|pat|];
      ReplaceAbsent(s[1..], pat, rep, x);
      assert [s[0]] + s[1..] == s;
    }
  }

  /** Replacing a character by text without it leaves none of it. */
  lemma {:induction false} ReplaceCharRemoves(s: string, k: char, v: string)
    requires k !in v
    ensures k !in Replace(s, [k], v)
  {
    if s != [] {
      ReplaceCharRemoves(s[1..], k, v);
    }
  }

  // ---- the table loop ----

  lemma {:induction false} MapCharsNoTable(s: string)
    ensures MapChars(s, []) == s
  {
    if s != [] {
      MapCharsNoTable(s[1..]);
      assert [s[0]] + s[1..] == s;
    }
  }

  lemma {:induction false} LookupAppend(c: char, t: Replacements, k: char, v: string)
    ensures Lookup(c, t + [(k, v)])
         == (if Lookup(c, t).Some? then Lookup(c, t) else if c == k then Some(v) else None)
  {
    if t != [] {
      assert (t + [(k, v)])[1..] == t[1..] + [(k, v)];
      LookupAppend(c, t[1..], k, v);
    }
  }

  /** A replacement of a table whose replacements are ASCII is ASCII. */
  lemma LookupAscii(c: char, t: Replacements)
    requires AsciiOverHigh(t) && Lookup(c, t).Some?
    ensures IsAscii(Lookup(c, t).value)
  {
    LookupFound(c, t);
    var i :| 0 <= i < |t| && t[i] == (c, Lookup(c, t).value);
  }

  /**
   * Applying one more entry with str.replace extends the table by that entry,
   * provided the character replaced is not ASCII and every replacement is:
   * a replacement never produces a character that a later entry replaces.
   */
  lemma {:induction false} ReplaceExtendsTable(s: string, t: Replacements, k: char, v: string)
    requires AsciiOverHigh(t) && k as int >= 0x80
    ensures Replace(MapChars(s, t), [k], v) == MapChars(s, t + [(k, v)])
  {
    if s != [] {
      var c := s[0];
      ReplaceCharConcat(MapChar(c, t), MapChars(s[1..], t), k, v);
      ReplaceExtendsTable(s[1..], t, k, v);
      LookupAppend(c, t, k, v);
      match Lookup(c, t)
      case Some(w) =>
        LookupAscii(c, t);
        assert k !in w;
        ReplaceAbsent(w, [k], v, k);
      case None =>
        if c == k {
          assert [c][..1] == [k];
          assert Replace([c], [k], v) == v + Replace([], [k], v);
        }
    }
  }

  /** The loop over a table: applying entry i after the entries before it. */
  lemma ReplaceExtendsPrefix(s: string, t: Replacements, i: nat)
    requires AsciiOverHigh(t) && i < |t|
    ensures Replace(MapChars(s, t[..i]), [t[i].0], t[i].1) == MapChars(s, t[..i + 1])
  {
    assert forall j | 0 <= j < i :: t[..i][j] == t[j];
    assert t[..i + 1] == t[..i] + [(t[i].0, t[i].1)];
    ReplaceExtendsTable(s, t[..i], t[i].0, t[i].1);
  }

  /** After the table loop no character the table replaces is left. */
  lemma {:induction false} MappedLacksTableChar(s: string, t: Replacements, c: char)
    requires AsciiOverHigh(t) && Lookup(c, t).Some?
    ensures c !in MapChars(s, t)
  {
    if s != [] {
      MappedLacksTableChar(s[1..], t, c);
      if Lookup(s[0], t).Some? {
        LookupAscii(s[0], t);
        LookupFound(c, t);
        var i :| 0 <= i < |t| && t[i] == (c, Lookup(c, t).value);
        assert c !in MapChar(s[0], t);
      }
    }
  }

  // ---- the latin-1 round trip ----

  lemma {:induction false} Latin1Concat(a: string, b: string)
    ensures Latin1Replace(a + b) == Latin1Replace(a) + Latin1Replace(b)
  {
    if a != [] {
      assert (a + b)[0] == a[0];
      assert (a + b)[1..] == a[1..] + b;
      Latin1Concat(a[1..], b);
    } else {
      assert a + b == b;
    }
  }

  /** Latin-1 text survives the encoding with replacement unchanged. */
  lemma {:induction false} Latin1OfEncodable(s: string)
    requires Latin1Encodable(s)
    ensures Latin1Replace(s) == s
  {
    if s != [] {
      Latin1OfEncodable(s[1..]);
      assert [s[0]] + s[1..] == s;
    }
  }

  /** The text after the table loop, encoded with replacement, is the reference meaning. */
  lemma {:induction false} Latin1OfMapped(s: string, t: Replacements)
    requires AsciiOverHigh(t)
    ensures Latin1Replace(MapChars(s, t)) == Sanitized(s, t)
  {
    if s != [] {
      var c := s[0];
      Latin1Concat(MapChar(c, t), MapChars(s[1..], t));
      Latin1OfMapped(s[1..], t);
      if Lookup(c, t).Some? {
        LookupAscii(c, t);
        Latin1OfEncodable(Lookup(c, t).value);
      }
    }
  }

  // ---- properties of the reference meaning ----

  /** Each part of a text is sanitised on its own: the result depends on each character alone. */
  lemma {:induction false} SanitizedConcat(a: string, b: string, t: Replacements)
    ensures Sanitized(a + b, t) == Sanitized(a, t) + Sanitized(b, t)
  {
    if a != [] {
      assert (a + b)[0] == a[0];
      assert (a + b)[1..] == a[1..] + b;
      SanitizedConcat(a[1..], b, t);
    } else {
      assert a + b == b;
    }
  }

  /** Every character of the result is encodable in latin-1. */
  lemma {:induction false} SanitizedIsLatin1(s: string, t: Replacements)
    requires AsciiOverHigh(t)
    ensures Latin1Encodable(Sanitized(s, t))
  {
    if s != [] {
      SanitizedIsLatin1(s[1..], t);
      if Lookup(s[0], t).Some? {
        LookupAscii(s[0], t);
      }
    }
  }

  /** No character the table replaces is left in the result. */
  lemma {:induction false} SanitizedHasNoTableChar(s: string, t: Replacements)
    requires AsciiOverHigh(t)
    ensures forall j | 0 <= j < |Sanitized(s, t)| :: Lookup(Sanitized(s, t)[j], t).None?
  {
    if s != [] {
      SanitizedHasNoTableChar(s[1..], t);
      var head := SanitizeChar(s[0], t);
      if Lookup(s[0], t).Some? {
        LookupAscii(s[0], t);
      }
      forall j | 0 <= j < |head|
        ensures Lookup(head[j], t).None?
      {
        if head[j] as int < 0x80 {
          LookupAsciiNone(head[j], t);
        } else {
          LookupMissing(head[j], t);
          LookupMissing(s[0], t);
        }
      }
    }
  }

  /** Latin-1 text without characters of the table passes through unchanged. */
  lemma {:induction false} SanitizedFixesPlainText(s: string, t: Replacements)
    requires Latin1Encodable(s)
    requires forall j | 0 <= j < |s| :: Lookup(s[j], t).None?
    ensures Sanitized(s, t) == s
  {
    if s != [] {
      SanitizedFixesPlainText(s[1..], t);
      assert [s[0]] + s[1..] == s;
    }
  }

  /** A non-ASCII latin-1 character that t does not replace: one that survives as it is. */
  predicate IsKeptHigh(c: char, t: Replacements)
  {
    0x80 <= c as int <= 0xFF && Lookup(c, t).None?
  }

  /** The characters of s that t keeps and that are not ASCII, in order. */
  function KeptHigh(s: string, t: Replacements): string
  {
    if s == [] then [] else (if IsKeptHigh(s[0], t) then [s[0]] else []) + KeptHigh(s[1..], t)
  }

  lemma {:induction false} KeptHighConcat(a: string, b: string, t: Replacements)
    ensures KeptHigh(a + b, t) == KeptHigh(a, t) + KeptHigh(b, t)
  {
    if a != [] {
      assert (a + b)[0] == a[0];
      assert (a + b)[1..] == a[1..] + b;
      KeptHighConcat(a[1..], b, t);
    } else {
      assert a + b == b;
    }
  }

  lemma {:induction false} KeptHighOfAscii(s: string, t: Replacements)
    requires IsAscii(s)
    ensures KeptHigh(s, t) == []
  {
    if s != [] {
      KeptHighOfAscii(s[1..], t);
    }
  }

  /**
   * The latin-1 characters outside ASCII that the table does not replace
   * come through in the same order: replacements and '?' are ASCII.
   */
  lemma {:induction false} SanitizedKeepsOrder(s: string, t: Replacements)
    requires AsciiOverHigh(t)
    ensures KeptHigh(Sanitized(s, t), t) == KeptHigh(s, t)
  {
    if s != [] {
      var c := s[0];
      KeptHighConcat(SanitizeChar(c, t), Sanitized(s[1..], t), t);
      SanitizedKeepsOrder(s[1..], t);
      if Lookup(c, t).Some? {
        LookupAscii(c, t);
        KeptHighOfAscii(SanitizeChar(c, t), t);
      } else if IsLatin1(c) {
        assert KeptHigh([c], t) == (if IsKeptHigh(c, t) then [c] else []) + KeptHigh([], t);
      } else {
        assert KeptHigh("?", t) == [] + KeptHigh([], t);
      }
    }
  }

  /** Replacing a second time changes nothing. */
  lemma SanitizedIdempotent(s: string, t: Replacements)
    requires AsciiOverHigh(t)
    ensures Sanitized(Sanitized(s, t), t) == Sanitized(s, t)
  {
    SanitizedIsLatin1(s, t);
    SanitizedHasNoTableChar(s, t);
    SanitizedFixesPlainText(Sanitized(s, t), t);
  }

  /** The first entry of t for c decides the replacement. */
  lemma {:induction false} LookupFirst(c: char, t: Replacements, i: nat)
    requires i < |t| && t[i].0 == c
    requires forall j | 0 <= j < i :: t[j].0 != c
    ensures Lookup(c, t) == Some(t[i].1)
  {
    if i > 0 {
      assert t[0].0 != c;
      assert forall j | 0 <= j < i - 1 :: t[1..][j] == t[j + 1];
      LookupFirst(c, t[1..], i - 1);
    }
  }

  lemma {:induction false} LookupConcat(c: char, t: Replacements, u: Replacements)
    ensures Lookup(c, t + u) == if Lookup(c, t).Some? then Lookup(c, t) else Lookup(c, u)
  {
    if t != [] {
      assert (t + u)[0] == t[0];
      assert (t + u)[1..] == t[1..] + u;
      LookupConcat(c, t[1..], u);
    } else {
      assert t + u == u;
    }
  }

  /** The table is searched group by group. */
  lemma LookupTable(c: char)
    ensures Lookup(c, Table)
         == if Lookup(c, Subscripts).Some? then Lookup(c, Subscripts)
            else if Lookup(c, Superscripts).Some? then Lookup(c, Superscripts)
            else if Lookup(c, Degree).Some? then Lookup(c, Degree)
            else Lookup(c, Greek)
  {
    LookupConcat(c, Subscripts, Superscripts);
    LookupConcat(c, Subscripts + Superscripts, Degree);
    LookupConcat(c, Subscripts + Superscripts + Degree, Greek);
  }

  /** The code points each group of the table replaces. */
  predicate IsSubscriptKey(c: char)   { 0x2080 <= c as int <= 0x2099 }
  predicate IsSuperscriptKey(c: char) { c as int == 0xB2 || c as int == 0xB3 || 0x2074 <= c as int <= 0x207F }
  predicate IsGreekKey(c: char)       { 0x3B1 <= c as int <= 0x3C9 }

  lemma SubscriptKeys()
    ensures forall i | 0 <= i < |Subscripts| :: IsSubscriptKey(Subscripts[i].0)
  {
  }

  lemma SuperscriptKeys()
    ensures forall i | 0 <= i < |Superscripts| :: IsSuperscriptKey(Superscripts[i].0)
  {
  }

  lemma GreekKeys()
    ensures forall i | 0 <= i < |Greek| :: IsGreekKey(Greek[i].0)
  {
  }

  /** A character outside every group's code points is not replaced by the table. */
  lemma LookupTableNone(c: char)
    requires !IsSubscriptKey(c) && !IsSuperscriptKey(c) && c != Degree[0].0 && !IsGreekKey(c)
    ensures Lookup(c, Table).None?
  {
    SubscriptKeys();
    SuperscriptKeys();
    GreekKeys();
    LookupMissing(c, Subscripts);
    LookupMissing(c, Superscripts);
    LookupMissing(c, Degree);
    LookupMissing(c, Greek);
    LookupTable(c);
  }

  lemma ExampleSubscript()
    ensures SanitizeChar('\U{2082}', Table) == "2"
  {
    SubscriptReplaced(2);
  }

  lemma ExampleSuperscript()
    ensures SanitizeChar('\U{00B3}', Table) == "3"
  {
    SuperscriptReplaced(1);
  }

  lemma ExampleDegree()
    ensures SanitizeChar('\U{00B0}', Table) == "deg"
  {
    SubscriptKeys();
    SuperscriptKeys();
    LookupMissing('\U{00B0}', Subscripts);
    LookupMissing('\U{00B0}', Superscripts);
    LookupFirst('\U{00B0}', Degree, 0);
    LookupTable('\U{00B0}');
  }

  lemma ExampleGreek()
    ensures SanitizeChar('\U{03BC}', Table) == "mu"
  {
    GreekReplaced(11);
  }

  /** A latin-1 character outside the table is kept; any other character becomes '?'. */
  lemma ExampleUntabled()
    ensures SanitizeChar('\U{00E9}', Table) == "\U{00E9}"
    ensures SanitizeChar('\U{2264}', Table) == "?"
  {
    LookupTableNone('\U{00E9}');
    LookupTableNone('\U{2264}');
  }

  /** The characters a table replaces are listed in strictly increasing order. */
  predicate KeysIncreasing(t: Replacements)
  {
    forall j | 0 <= j < |t| - 1 :: t[j].0 < t[j + 1].0
  }

  lemma {:induction false} IncreasingFirstKey(t: Replacements, i: nat)
    requires KeysIncreasing(t) && 0 < i < |t|
    ensures t[0].0 < t[i].0
  {
    if i > 1 {
      forall j | 0 <= j < |t| - 2
        ensures t[1..][j].0 < t[1..][j + 1].0
      {
        assert t[1..][j] == t[j + 1] && t[1..][j + 1] == t[j + 2];
      }
      IncreasingFirstKey(t[1..], i - 1);
    }
  }

  /** In a table with increasing keys every entry is the one found for its character. */
  lemma {:induction false} IncreasingLookup(t: Replacements, i: nat)
    requires KeysIncreasing(t) && i < |t|
    ensures Lookup(t[i].0, t) == Some(t[i].1)
  {
    forall j | 0 <= j < i
      ensures t[j].0 != t[i].0
    {
      var u := t[j..];
      forall k | 0 <= k < |u| - 1
        ensures u[k].0 < u[k + 1].0
      {
        assert u[k] == t[j + k] && u[k + 1] == t[j + k + 1];
      }
      IncreasingFirstKey(u, i - j);
      assert u[0] == t[j] && u[i - j] == t[i];
    }
    LookupFirst(t[i].0, t, i);
  }

  lemma SubscriptsIncreasing()
    ensures KeysIncreasing(Subscripts)
  {
  }

  lemma SuperscriptsIncreasing()
    ensures KeysIncreasing(Superscripts)
  {
  }

  lemma GreekIncreasing()
    ensures KeysIncreasing(Greek)
  {
  }

  /** Every subscript is replaced by its entry of the table. */
  lemma SubscriptReplaced(i: nat)
    requires i < |Subscripts|
    ensures SanitizeChar(Subscripts[i].0, Table) == Subscripts[i].1
  {
    SubscriptsIncreasing();
    IncreasingLookup(Subscripts, i);
    LookupTable(Subscripts[i].0);
  }

  /** Every superscript is replaced by its entry of the table. */
  lemma SuperscriptReplaced(i: nat)
    requires i < |Superscripts|
    ensures SanitizeChar(Superscripts[i].0, Table) == Superscripts[i].1
  {
    var c := Superscripts[i].0;
    SuperscriptsIncreasing();
    IncreasingLookup(Superscripts, i);
    SubscriptKeys();
    SuperscriptKeys();
    assert !IsSubscriptKey(c);
    LookupMissing(c, Subscripts);
    LookupTable(c);
  }

  /** Every Greek letter is replaced by its spelled-out name. */
  lemma GreekReplaced(i: nat)
    requires i < |Greek|
    ensures SanitizeChar(Greek[i].0, Table) == Greek[i].1
  {
    var c := Greek[i].0;
    GreekIncreasing();
    IncreasingLookup(Greek, i);
    SubscriptKeys();
    SuperscriptKeys();
    GreekKeys();
    assert IsGreekKey(c) && !IsSubscriptKey(c) && !IsSuperscriptKey(c) && c != Degree[0].0;
    LookupMissing(c, Subscripts);
    LookupMissing(c, Superscripts);
    LookupMissing(c, Degree);
    LookupTable(c);
  }

  /** Every subscript character is a character of the table. */
  lemma SubscriptInTable(i: nat)
    requires i < |Subscripts|
    ensures Lookup(Subscripts[i].0, Table).Some?
  {
    var c := Subscripts[i].0;
    LookupMissing(c, Subscripts);
    LookupTable(c);
  }

  /** After the table loop none of the subscripts 2, 3 and 4 is left. */
  lemma MappedLacksFormulaSubscripts(s: string)
    ensures '\U{2082}' !in MapChars(s, Table)
    ensures '\U{2083}' !in MapChars(s, Table)
    ensures '\U{2084}' !in MapChars(s, Table)
  {
    TableAsciiOverHigh();
    SubscriptInTable(2);
    SubscriptInTable(3);
    SubscriptInTable(4);
    MappedLacksTableChar(s, Table, Subscripts[2].0);
    MappedLacksTableChar(s, Table, Subscripts[3].0);
    MappedLacksTableChar(s, Table, Subscripts[4].0);
  }

  /** The chemical formulas find nothing to rewrite in a text without the subscripts 2, 3 and 4. */
  lemma FormulasAbsent(text: string)
    requires '\U{2082}' !in text && '\U{2083}' !in text && '\U{2084}' !in text
    ensures Replace(text, "CO\U{2082}", "CO2") == text
    ensures Replace(text, "H\U{2082}", "H2") == text
    ensures Replace(text, "CH\U{2084}", "CH4") == text
    ensures Replace(text, "NH\U{2083}", "NH3") == text
    ensures Replace(text, "N\U{2082}", "N2") == text
    ensures Replace(text, "O\U{2082}", "O2") == text
    ensures Replace(text, "H\U{2082}O", "H2O") == text
    ensures Replace(text, "H\U{2082}S", "H2S") == text
  {
    ReplaceAbsent(text, "CO\U{2082}", "CO2", '\U{2082}');
    ReplaceAbsent(text, "H\U{2082}", "H2", '\U{2082}');
    ReplaceAbsent(text, "CH\U{2084}", "CH4", '\U{2084}');
    ReplaceAbsent(text, "NH\U{2083}", "NH3", '\U{2083}');
    ReplaceAbsent(text, "N\U{2082}", "N2", '\U{2082}');
    ReplaceAbsent(text, "O\U{2082}", "O2", '\U{2082}');
    ReplaceAbsent(text, "H\U{2082}O", "H2O", '\U{2082}');
    ReplaceAbsent(text, "H\U{2082}S", "H2S", '\U{2082}');
  }

  // ---- the replacement itself ----

  /**
   * Replaces the characters of the table one entry at a time, rewrites the
   * chemical formulas, and replaces anything still outside latin-1 by '?'.
   * A value that is not text is returned as it is.
   */
  method ReplaceUnicodeChars<T>(arg: Arg<T>) returns (r: Arg<T>)
    ensures arg.Other? ==> r == arg
    ensures arg.Str? ==> r == Str(Sanitized(arg.s, Table))
  {
    if !arg.Str? {
      return arg;
    }
    var text := arg.s;

    TableAsciiOverHigh();
    MapCharsNoTable(arg.s);
    for i := 0 to |Table|
      invariant text == MapChars(arg.s, Table[..i])
    {
      var (unicodeChar, asciiChar) := Table[i];
      ReplaceExtendsPrefix(arg.s, Table, i);
      text := Replace(text, [unicodeChar], asciiChar);
    }
    assert Table[..|Table|] == Table;

    // Each formula holds a subscript the loop above has already replaced.
    MappedLacksFormulaSubscripts(arg.s);
    FormulasAbsent(text);
    text := Replace(text, "CO\U{2082}", "CO2");
    text := Replace(text, "H\U{2082}", "H2");
    text := Replace(text, "CH\U{2084}", "CH4");
    text := Replace(text, "NH\U{2083}", "NH3");
    text := Replace(text, "N\U{2082}", "N2");
    text := Replace(text, "O\U{2082}", "O2");
    text := Replace(text, "H\U{2082}O", "H2O");
    text := Replace(text, "H\U{2082}S", "H2S");

    Latin1OfMapped(arg.s, Table);
    if Latin1Encodable(text) {
      Latin1OfEncodable(text);
      r := Str(text);
    } else {
      r := Str(Latin1Replace(text));
    }
  }
}
