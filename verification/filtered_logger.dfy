/** The PII filter of the personal-data logger: `filter_datum` rewrites every
    `field=value` of a listed field to `field=<redaction>`, by one
    `re.sub` with the pattern `(?P<field>f1|f2|...)=[^<separator>]*` and the
    template `\g<field>=<redaction>`. The pattern is modelled by a direct
    left-to-right scanner. */
module FilteredLogger {

  import opened Wrappers
  import opened Strings

  /** The alternatives of `(?P<field>f1|f2|...)`. Joining an empty list
      gives the empty group, which matches before every '='. */
  function Alts(fields: seq<string>): (r: seq<string>)
    ensures |r| > 0
  {
    if |fields| == 0 then [""] else fields
  }

  /** What the pattern does at the start of `s`: the first alternative `f`,
      in list order, that `s` starts with followed by '='. The regex engine
      backtracks into the next alternative when '=' does not follow. */
  function MatchAt(alts: seq<string>, s: string): (r: Option<nat>)
    ensures r.Some? ==> r.value < |alts| && StartsWith(s, alts[r.value] + "=")
  {
    MatchFrom(alts, s, 0)
  }

  /** `MatchAt` finds the first alternative that applies, and finds none
      only when none applies. */
  lemma MatchAtFirst(alts: seq<string>, s: string)
    ensures var r := MatchAt(alts, s);
            && (r.Some? ==> forall j :: 0 <= j < r.value ==> !StartsWith(s, alts[j] + "="))
            && (r.None? ==> forall j :: 0 <= j < |alts| ==> !StartsWith(s, alts[j] + "="))
  {
  }

  function MatchFrom(alts: seq<string>, s: string, k: nat): (r: Option<nat>)
    requires k <= |alts|
    ensures r.Some? ==> k <= r.value < |alts| && StartsWith(s, alts[r.value] + "=")
    ensures r.Some? ==> forall j :: k <= j < r.value ==> !StartsWith(s, alts[j] + "=")
    ensures r.None? ==> forall j :: k <= j < |alts| ==> !StartsWith(s, alts[j] + "=")
    decreases |alts| - k
  {
    if k == |alts| then None
    else if StartsWith(s, alts[k] + "=") then Some(k)
    else MatchFrom(alts, s, k + 1)
  }

  /** The length of `[^sep]*` at the start of `s`: the longest prefix
      without the separator */
  function RunLength(s: string, sep: char): (n: nat)
    ensures n <= |s| && sep !in s[..n]
    ensures n < |s| ==> s[n] == sep
  {
    if |s| == 0 || s[0] == sep then 0
    else
      var n := 1 + RunLength(s[1..], sep);
      assert s[..n] == [s[0]] + s[1..][..n - 1];
      n
  }

  /** `re.sub` of the pattern over `s`: scanning left to right, a match
      `f=value` becomes `f=` followed by the redaction and scanning resumes
      after the value; a character where nothing matches is kept. With no
      fields nothing matches, so the text comes back as it was. */
  function Redact(alts: seq<string>, redaction: string, s: string, sep: char): (r: string)
    ensures |alts| == 0 ==> r == s
    decreases |s|
  {
    if |s| == 0 then ""
    else
      match MatchAt(alts, s)
      case Some(k) =>
        var rest := s[|alts[k]| + 1..];
        var n := RunLength(rest, sep);
        alts[k] + "=" + redaction + Redact(alts, redaction, rest[n..], sep)
      case None =>
        assert [s[0]] + s[1..] == s;
        [s[0]] + Redact(alts, redaction, s[1..], sep)
  }

  /** Whether no alternative contains the character */
  predicate AltsAvoid(alts: seq<string>, c: char) {
    forall j :: 0 <= j < |alts| ==> c !in alts[j]
  }

  /** The arguments for which the built pattern means what it reads as:
      fields that `re` takes literally, a one-character separator that is
      not '\' inside the character class, and a template without '\'. */
  predicate WellFormed(fields: seq<string>, redaction: string, separator: string) {
    && (forall j :: 0 <= j < |fields| ==> NoRegexMeta(fields[j]))
    && |separator| == 1 && separator[0] != '\\'
    && '\\' !in redaction
  }

  /** `filter_datum(fields, redaction, message, separator)`. A message
      without '=' comes back unchanged, and the number of separators is kept
      when the redaction has none. */
  function FilterDatum(fields: seq<string>, redaction: string, message: string, separator: string): (r: string)
    requires WellFormed(fields, redaction, separator)
    ensures '=' !in message ==> r == message
    ensures separator[0] !in redaction ==>
              multiset(r)[separator[0]] == multiset(message)[separator[0]]
  {
    var r := Redact(Alts(fields), redaction, message, separator[0]);
    NoEqualsUnchanged(Alts(fields), redaction, message, separator[0]);
    SeparatorsKept(Alts(fields), redaction, message, separator[0]);
    r
  }

  /** Where nothing matches, nothing changes. */
  lemma {:induction false} NoMatchUnchanged(alts: seq<string>, redaction: string, s: string, sep: char)
    requires forall i, j :: 0 <= i < |s| && 0 <= j < |alts| ==> !StartsWith(s[i..], alts[j] + "=")
    ensures Redact(alts, redaction, s, sep) == s
    decreases |s|
  {
    if |s| > 0 {
      assert s[0..] == s;
      assert MatchAt(alts, s).None?;
      forall i, j | 0 <= i < |s| - 1 && 0 <= j < |alts|
        ensures !StartsWith(s[1..][i..], alts[j] + "=")
      {
        assert s[1..][i..] == s[i + 1..];
      }
      NoMatchUnchanged(alts, redaction, s[1..], sep);
    }
  }

  /** Every match needs an '=', so a text without one is unchanged. */
  lemma NoEqualsUnchanged(alts: seq<string>, redaction: string, s: string, sep: char)
    ensures '=' !in s ==> Redact(alts, redaction, s, sep) == s
  {
    if '=' !in s {
      forall i, j | 0 <= i < |s| && 0 <= j < |alts|
        ensures !StartsWith(s[i..], alts[j] + "=")
      {
        var w := alts[j] + "=";
        if |w| <= |s| - i {
          assert s[i + |w| - 1] in s;
          assert s[i..][..|w|][|w| - 1] != w[|w| - 1];
        }
      }
      NoMatchUnchanged(alts, redaction, s, sep);
    }
  }

  /** Separators are never removed nor added, when the redaction has none:
      the text a match replaces holds no separator beyond the field name. */
  lemma {:induction false} SeparatorsKept(alts: seq<string>, redaction: string, s: string, sep: char)
    ensures sep !in redaction ==> multiset(Redact(alts, redaction, s, sep))[sep] == multiset(s)[sep]
    decreases |s|, 1
  {
    if |s| > 0 && sep !in redaction {
      match MatchAt(alts, s)
      case Some(k) =>
        KeptAtMatch(alts, redaction, s, sep, k);
      case None =>
        SeparatorsKept(alts, redaction, s[1..], sep);
        RedactSkip(alts, redaction, s, sep);
        Uncons(s, Redact(alts, redaction, s[1..], sep));
        CountAcross(s, [s[0]], "", s[1..], Redact(alts, redaction, s, sep),
                    "", Redact(alts, redaction, s[1..], sep), sep);
    }
  }

  /** The step of `SeparatorsKept` at a match */
  lemma {:induction false} KeptAtMatch(alts: seq<string>, redaction: string, s: string, sep: char, k: nat)
    requires |s| > 0 && sep !in redaction && MatchAt(alts, s) == Some(k)
    ensures multiset(Redact(alts, redaction, s, sep))[sep] == multiset(s)[sep]
    decreases |s|, 0
  {
    var head := alts[k] + "=";
    var rest := s[|head|..];
    var n := RunLength(rest, sep);
    var tail := rest[n..];
    SeparatorsKept(alts, redaction, tail, sep);
    Pieces(s, |head|, n);
    CountAcross(s, head, rest[..n], tail, Redact(alts, redaction, s, sep),
                redaction, Redact(alts, redaction, tail, sep), sep);
  }

  lemma Uncons(s: string, t: string)
    requires |s| > 0
    ensures s == [s[0]] + "" + s[1..] && [s[0]] + t == [s[0]] + "" + t
  {
  }

  /** Replacing a run without `x` by a text without `x` keeps the count of
      `x`, when the texts after them have equal counts. */
  lemma CountAcross(s: string, head: string, mid: string, tail: string,
                    out: string, repl: string, outTail: string, x: char)
    requires s == head + mid + tail && out == head + repl + outTail
    requires x !in mid && x !in repl
    requires multiset(outTail)[x] == multiset(tail)[x]
    ensures multiset(out)[x] == multiset(s)[x]
  {
    Count3(head, mid, tail, x);
    Count3(head, repl, outTail, x);
    NotCounted(mid, x);
    NotCounted(repl, x);
  }

  lemma Pieces(s: string, i: nat, n: nat)
    requires i + n <= |s|
    ensures s == s[..i] + s[i..][..n] + s[i..][n..]
  {
  }

  lemma Count3(a: string, b: string, c: string, x: char)
    ensures multiset(a + b + c)[x] == multiset(a)[x] + multiset(b)[x] + multiset(c)[x]
  {
    assert multiset(a + b + c) == multiset(a) + multiset(b) + multiset(c);
  }

  lemma NotCounted(a: string, x: char)
    requires x !in a
    ensures multiset(a)[x] == 0
  {
  }

  /** `MatchAt` is fixed by which alternatives, followed by '=', begin the
      text. */
  lemma MatchAtDetermined(alts: seq<string>, s: string, t: string)
    requires forall j :: 0 <= j < |alts| ==> (StartsWith(s, alts[j] + "=") <==> StartsWith(t, alts[j] + "="))
    ensures MatchAt(alts, s) == MatchAt(alts, t)
  {
  }

  /** Text after a separator cannot complete a match begun before it. */
  lemma MatchStopsAtSeparator(alts: seq<string>, a: string, t: string, sep: char)
    requires sep != '=' && AltsAvoid(alts, sep) && sep !in a
    requires |t| > 0 && t[0] == sep
    ensures MatchAt(alts, a + t) == MatchAt(alts, a)
  {
    forall j | 0 <= j < |alts|
      ensures StartsWith(a + t, alts[j] + "=") <==> StartsWith(a, alts[j] + "=")
    {
      var w := alts[j] + "=";
      if |w| > |a| {
        assert (a + t)[|a|] == sep;
        if |a| < |alts[j]| {
          assert w[|a|] == alts[j][|a|];
        }
      } else {
        assert (a + t)[..|w|] == a[..|w|];
      }
    }
    MatchAtDetermined(alts, a + t, a);
  }

  /** No match begins at a separator. */
  lemma NoMatchAtSeparator(alts: seq<string>, t: string, sep: char)
    requires sep != '=' && AltsAvoid(alts, sep)
    requires |t| > 0 && t[0] == sep
    ensures MatchAt(alts, t).None?
  {
    MatchStopsAtSeparator(alts, "", t, sep);
    assert "" + t == t;
  }

  /** The value run ends at the next separator or at the end of the text. */
  lemma {:induction false} RunLengthStops(x: string, t: string, sep: char)
    requires sep !in x && (|t| == 0 || t[0] == sep)
    ensures RunLength(x + t, sep) == |x|
    decreases |x|
  {
    if |x| > 0 {
      assert (x + t)[1..] == x[1..] + t;
      RunLengthStops(x[1..], t, sep);
    } else {
      assert x + t == t;
    }
  }

  /** Redacting `a + [sep] + b` when a match begins `a`: the match stops
      at the separator. */
  lemma SplitsAfterMatch(alts: seq<string>, redaction: string, a: string, b: string, sep: char)
    requires sep != '=' && AltsAvoid(alts, sep) && sep !in a
    requires MatchAt(alts, a).Some?
    ensures Redact(alts, redaction, a + [sep] + b, sep)
            == Redact(alts, redaction, a, sep) + [sep] + Redact(alts, redaction, b, sep)
  {
    var t := [sep] + b;
    var s := a + t;
    var k := MatchAt(alts, a).value;
    var f := alts[k];
    var ra := a[|f| + 1..];
    var head := f + "=" + redaction;
    var rb := Redact(alts, redaction, b, sep);
    Appended(a, t, |f| + 1);
    RunLengthStops(ra, t, sep);
    RunLengthStops(ra, "", sep);
    MatchStopsAtSeparator(alts, a, t, sep);
    RedactAtMatch(alts, redaction, s, sep, k, ra + t, t);
    assert Redact(alts, redaction, s, sep) == head + Redact(alts, redaction, t, sep);
    RedactAtMatch(alts, redaction, a, sep, k, ra, "");
    assert Redact(alts, redaction, a, sep) == head + "";
    NoMatchAtSeparator(alts, t, sep);
    RedactSkip(alts, redaction, t, sep);
    Regroup(a, head, sep, b, rb);
  }

  /** Slicing past a text's end drops it; its own suffix is kept. */
  lemma Appended(a: string, t: string, i: nat)
    requires i <= |a|
    ensures (a + t)[i..] == a[i..] + t
    ensures a[i..] + "" == a[i..] && (a[i..] + t)[|a[i..]|..] == t && a[i..][|a[i..]|..] == ""
  {
  }

  /** Concatenation regrouped around a separator */
  lemma Regroup(a: string, h: string, x: char, b: string, rb: string)
    ensures a + [x] + b == a + ([x] + b) && ([x] + b)[0] == x && ([x] + b)[1..] == b
    ensures h + ([x] + rb) == h + "" + [x] + rb
  {
  }

  /** One step of `Redact` where nothing matches */
  lemma RedactSkip(alts: seq<string>, redaction: string, s: string, sep: char)
    requires |s| > 0 && MatchAt(alts, s).None?
    ensures Redact(alts, redaction, s, sep) == [s[0]] + Redact(alts, redaction, s[1..], sep)
  {
  }

  /** A match never reaches across a separator: the texts on either side of
      one are redacted independently. */
  lemma {:induction false} SeparatorSplits(alts: seq<string>, redaction: string, a: string, b: string, sep: char)
    requires sep != '=' && AltsAvoid(alts, sep) && sep !in a
    ensures Redact(alts, redaction, a + [sep] + b, sep)
            == Redact(alts, redaction, a, sep) + [sep] + Redact(alts, redaction, b, sep)
    decreases |a|
  {
    var t := [sep] + b;
    var s := a + t;
    assert a + [sep] + b == s;
    if |a| == 0 {
      assert s == t;
      NoMatchAtSeparator(alts, t, sep);
      assert t[1..] == b;
    } else if MatchAt(alts, a).Some? {
      SplitsAfterMatch(alts, redaction, a, b, sep);
    } else {
      MatchStopsAtSeparator(alts, a, t, sep);
      assert s[1..] == a[1..] + [sep] + b;
      SeparatorSplits(alts, redaction, a[1..], b, sep);
      assert Redact(alts, redaction, s, sep) == [a[0]] + Redact(alts, redaction, s[1..], sep);
    }
  }

  /** Redaction creates no new `w=` at the start of a text when `w` has no
      '=': the first '=' of a redacted match is the one after its field. */
  lemma {:induction false} EqualsPrefixBack(alts: seq<string>, redaction: string, s: string, sep: char, w: string)
    requires AltsAvoid(alts, '=') && '=' !in w
    requires StartsWith(Redact(alts, redaction, s, sep), w + "=")
    ensures StartsWith(s, w + "=")
    decreases |s|
  {
    var out := Redact(alts, redaction, s, sep);
    match MatchAt(alts, s)
    case Some(k) =>
      var rest := s[|alts[k]| + 1..];
      RedactAtMatch(alts, redaction, s, sep, k, rest, rest[RunLength(rest, sep)..]);
      AfterHead(alts[k], redaction, Redact(alts, redaction, rest[RunLength(rest, sep)..], sep));
      SameField(alts[k], w, out);
    case None =>
      RedactSkip(alts, redaction, s, sep);
      if |w| > 0 {
        var out1 := Redact(alts, redaction, s[1..], sep);
        ConsPrefix(s[0], out1, w);
        EqualsPrefixBack(alts, redaction, s[1..], sep, w[1..]);
        ConsPrefixBack(s, w);
      } else {
        assert out[0] == s[0];
      }
  }

  /** Two fields without '=' that both begin a text followed by '=' are
      the same field. */
  lemma SameField(f: string, w: string, out: string)
    requires '=' !in f && '=' !in w
    requires StartsWith(out, f + "=") && StartsWith(out, w + "=")
    ensures w == f
  {
    assert out[|f|] == '=' && out[|w|] == '=';
    assert forall i :: 0 <= i < |f| ==> out[i] == f[i] && f[i] in f;
    assert forall i :: 0 <= i < |w| ==> out[i] == w[i] && w[i] in w;
    assert |w| == |f|;
    assert out[..|w|] == w;
    assert out[..|f|] == f;
  }

  /** `w=` begins `[c] + x` when `c` is its first character and the rest of
      `w=` begins `x`. */
  lemma ConsPrefix(c: char, x: string, w: string)
    requires |w| > 0 && StartsWith([c] + x, w + "=")
    ensures c == w[0] && StartsWith(x, w[1..] + "=")
  {
    assert ([c] + x)[0] == (w + "=")[0];
    assert x[..|w|] == ([c] + x)[1..|w| + 1];
    assert w[1..] + "=" == (w + "=")[1..];
  }

  lemma ConsPrefixBack(s: string, w: string)
    requires |s| > 0 && |w| > 0 && s[0] == w[0] && StartsWith(s[1..], w[1..] + "=")
    ensures StartsWith(s, w + "=")
  {
    assert s[..|w| + 1] == [s[0]] + s[1..][..|w|];
    assert w + "=" == [w[0]] + (w[1..] + "=");
  }

  /** A text that is empty or starts with a separator redacts to one that is
      empty or starts with a separator. */
  lemma SeparatorStartKept(alts: seq<string>, redaction: string, s: string, sep: char)
    requires sep != '=' && AltsAvoid(alts, sep)
    requires |s| == 0 || s[0] == sep
    ensures var out := Redact(alts, redaction, s, sep);
            |out| == 0 || out[0] == sep
  {
    if |s| > 0 {
      NoMatchAtSeparator(alts, s, sep);
    }
  }

  /** Redaction is idempotent when no field holds '=' or the separator and
      the redaction holds no separator: a second pass finds the same
      matches, each now followed by exactly the redaction. */
  lemma {:induction false} RedactIdempotent(alts: seq<string>, redaction: string, s: string, sep: char)
    requires sep != '=' && AltsAvoid(alts, sep) && AltsAvoid(alts, '=') && sep !in redaction
    ensures var out := Redact(alts, redaction, s, sep);
            Redact(alts, redaction, out, sep) == out
    decreases |s|
  {
    var out := Redact(alts, redaction, s, sep);
    if |s| > 0 {
      forall j | 0 <= j < |alts| && StartsWith(out, alts[j] + "=")
        ensures StartsWith(s, alts[j] + "=")
      {
        EqualsPrefixBack(alts, redaction, s, sep, alts[j]);
      }
      match MatchAt(alts, s)
      case Some(k) =>
        IdempotentAtMatch(alts, redaction, s, sep, k);
      case None =>
        var out1 := Redact(alts, redaction, s[1..], sep);
        assert out == [s[0]] + out1;
        assert MatchAt(alts, out).None?;
        assert out[1..] == out1;
        RedactIdempotent(alts, redaction, s[1..], sep);
    }
  }

  /** The step of `RedactIdempotent` at a match */
  lemma {:induction false} IdempotentAtMatch(alts: seq<string>, redaction: string, s: string, sep: char, k: nat)
    requires sep != '=' && AltsAvoid(alts, sep) && AltsAvoid(alts, '=') && sep !in redaction
    requires |s| > 0 && MatchAt(alts, s) == Some(k)
    requires forall j :: 0 <= j < |alts| && StartsWith(Redact(alts, redaction, s, sep), alts[j] + "=")
                         ==> StartsWith(s, alts[j] + "=")
    ensures var out := Redact(alts, redaction, s, sep);
            Redact(alts, redaction, out, sep) == out
    decreases |s|, 0
  {
    var rest := s[|alts[k]| + 1..];
    var tail := rest[RunLength(rest, sep)..];
    var out1 := Redact(alts, redaction, tail, sep);
    var out := Redact(alts, redaction, s, sep);
    RedactAtMatch(alts, redaction, s, sep, k, rest, tail);
    AfterHead(alts[k], redaction, out1);
    FirstMatchKept(alts, s, out, k);
    SeparatorStartKept(alts, redaction, tail, sep);
    RedactIdempotent(alts, redaction, tail, sep);
    FixedAtMatch(alts, redaction, out, out1, sep, k);
  }

  /** A text that begins with no more alternatives than `s` but with the
      one `s` first matches has the same first match. */
  lemma FirstMatchKept(alts: seq<string>, s: string, t: string, k: nat)
    requires MatchAt(alts, s) == Some(k) && StartsWith(t, alts[k] + "=")
    requires forall j :: 0 <= j < |alts| && StartsWith(t, alts[j] + "=") ==> StartsWith(s, alts[j] + "=")
    ensures MatchAt(alts, t) == Some(k)
  {
    MatchAtFirst(alts, s);
    MatchAtFirst(alts, t);
  }

  /** A redacted match followed by a fixed point that is empty or starts
      with a separator is itself a fixed point. */
  lemma FixedAtMatch(alts: seq<string>, redaction: string, out: string, out1: string, sep: char, k: nat)
    requires k < |alts| && out == alts[k] + "=" + redaction + out1 && MatchAt(alts, out) == Some(k)
    requires sep !in redaction && (|out1| == 0 || out1[0] == sep)
    requires Redact(alts, redaction, out1, sep) == out1
    ensures Redact(alts, redaction, out, sep) == out
  {
    var restOut := out[|alts[k]| + 1..];
    AfterHead(alts[k], redaction, out1);
    RunLengthStops(redaction, out1, sep);
    assert restOut[|redaction|..] == out1;
    RedactAtMatch(alts, redaction, out, sep, k, restOut, out1);
  }

  /** A redacted match starts with its field and '=' and goes on with the
      redaction. */
  lemma AfterHead(f: string, a: string, b: string)
    ensures StartsWith(f + "=" + a + b, f + "=")
    ensures (f + "=" + a + b)[|f| + 1..] == a + b
  {
    assert (f + "=" + a + b)[..|f| + 1] == f + "=";
  }

  /** One step of `Redact` at a match */
  lemma RedactAtMatch(alts: seq<string>, redaction: string, s: string, sep: char, k: nat, rest: string, tail: string)
    requires |s| > 0 && MatchAt(alts, s) == Some(k)
    requires rest == s[|alts[k]| + 1..] && tail == rest[RunLength(rest, sep)..]
    ensures Redact(alts, redaction, s, sep) == alts[k] + "=" + redaction + Redact(alts, redaction, tail, sep)
  {
  }

  /** Does some suffix of `key` (the empty one included) appear among the
      alternatives? Such a key is redacted: the pattern is not anchored, so
      `username=` matches through `name`. */
  function SuffixListed(alts: seq<string>, key: string): bool {
    key in alts || (|key| > 0 && SuffixListed(alts, key[1..]))
  }

  /** `SuffixListed` holds exactly when some suffix of the key is listed. */
  lemma {:induction false} SuffixListedMeans(alts: seq<string>, key: string)
    ensures SuffixListed(alts, key) <==> exists i :: 0 <= i <= |key| && key[i..] in alts
  {
    assert key[0..] == key;
    if |key| > 0 {
      SuffixListedMeans(alts, key[1..]);
      assert forall i :: 1 <= i <= |key| ==> key[i..] == key[1..][i - 1..];
      if SuffixListed(alts, key[1..]) {
        var i :| 0 <= i <= |key[1..]| && key[1..][i..] in alts;
        assert key[i + 1..] == key[1..][i..];
      }
    }
  }

  /** In `key=value` with no '=' in the key, the only alternative that can
      match at the start is the key itself. */
  lemma OnlyKeyMatches(alts: seq<string>, key: string, value: string)
    requires AltsAvoid(alts, '=') && '=' !in key
    ensures forall j :: 0 <= j < |alts| ==>
              (StartsWith(key + "=" + value, alts[j] + "=") <==> alts[j] == key)
  {
    var s := key + "=" + value;
    forall j | 0 <= j < |alts|
      ensures StartsWith(s, alts[j] + "=") <==> alts[j] == key
    {
      var f := alts[j];
      if StartsWith(s, f + "=") {
        assert s[|f|] == '=' && s[|key|] == '=';
        assert '=' !in f;
        assert forall i :: 0 <= i < |key| ==> s[i] == key[i] && key[i] in key && s[i] != '=';
        assert forall i :: 0 <= i < |f| ==> s[i] == (f + "=")[i] == f[i] && f[i] in f && s[i] != '=';
        assert |f| == |key|;
        assert f == s[..|f|] == key;
      }
      assert s[..|key| + 1] == key + "=";
    }
  }

  /** One `key=value` field, with neither part holding '=' or the separator:
      it keeps its key and gets the redaction as its value exactly when some
      suffix of the key is a listed field. */
  lemma {:induction false} FieldRedacted(alts: seq<string>, redaction: string, key: string, value: string, sep: char)
    requires AltsAvoid(alts, '=')
    requires '=' !in key && '=' !in value && sep !in key && sep !in value
    ensures Redact(alts, redaction, key + "=" + value, sep)
            == key + "=" + (if SuffixListed(alts, key) then redaction else value)
    decreases |key|
  {
    var s := key + "=" + value;
    OnlyKeyMatches(alts, key, value);
    if key in alts {
      ListedKeyRedacted(alts, redaction, key, value, sep);
    } else if |key| == 0 {
      assert MatchAt(alts, s).None?;
      RedactSkip(alts, redaction, s, sep);
      ShiftField(key, value, redaction);
      NoEqualsUnchanged(alts, redaction, value, sep);
    } else {
      assert MatchAt(alts, s).None?;
      RedactSkip(alts, redaction, s, sep);
      ShiftField(key, value, redaction);
      FieldRedacted(alts, redaction, key[1..], value, sep);
    }
  }

  /** `key=value` without its first character */
  lemma ShiftField(key: string, value: string, x: string)
    ensures var s := key + "=" + value;
            |key| == 0 ==> s[0] == '=' && s[1..] == value && s == [s[0]] + value
    ensures var s := key + "=" + value;
            |key| > 0 ==> s[0] == key[0] && s[1..] == key[1..] + "=" + value
                          && key + "=" + x == [key[0]] + (key[1..] + "=" + x)
  {
    if |key| > 0 {
      assert key + "=" + x == [key[0]] + (key[1..] + "=" + x);
    }
  }

  /** The case of `FieldRedacted` where the whole key is listed */
  lemma ListedKeyRedacted(alts: seq<string>, redaction: string, key: string, value: string, sep: char)
    requires AltsAvoid(alts, '=') && '=' !in key && sep !in value && key in alts
    ensures Redact(alts, redaction, key + "=" + value, sep) == key + "=" + redaction
  {
    var s := key + "=" + value;
    OnlyKeyMatches(alts, key, value);
    var k := MatchAt(alts, s).value;
    assert alts[k] == key;
    var rest := s[|key| + 1..];
    assert rest == value;
    RunLengthStops(value, "", sep);
    assert value + "" == value;
    assert value[|value|..] == "";
  }

  /** A text whose last character is a space, or the empty text, in front
      of a key does not change whether the key is listed, when no field
      holds a space. */
  lemma {:induction false} LeadIrrelevant(alts: seq<string>, lead: string, key: string)
    requires AltsAvoid(alts, ' ') && (|lead| == 0 || lead[|lead| - 1] == ' ')
    ensures SuffixListed(alts, lead + key) == SuffixListed(alts, key)
    decreases |lead|
  {
    if |lead| == 0 {
      assert lead + key == key;
    } else {
      var s := lead + key;
      assert s[|lead| - 1] == ' ';
      assert ' ' in s;
      assert s !in alts;
      assert s[1..] == lead[1..] + key;
      LeadIrrelevant(alts, lead[1..], key);
    }
  }

  // ----- The record line of `main` -----

  /** `'{}={}'.format(column, value)` */
  function Field(column: string, value: string): string {
    column + "=" + value
  }

  /** `map(..., zip(columns, row))`: one field per column and value, up to
      the shorter of the two */
  function Fields(columns: seq<string>, row: seq<string>): (r: seq<string>)
    ensures |r| == (if |columns| < |row| then |columns| else |row|)
    ensures forall i :: 0 <= i < |r| ==> r[i] == Field(columns[i], row[i])
  {
    if |columns| == 0 || |row| == 0 then []
    else [Field(columns[0], row[0])] + Fields(columns[1..], row[1..])
  }

  /** `sep.join(parts)` */
  function Join(sep: string, parts: seq<string>): string {
    if |parts| == 0 then ""
    else if |parts| == 1 then parts[0]
    else parts[0] + sep + Join(sep, parts[1..])
  }

  /** The message `main` logs for one row: `'{};'.format('; '.join(fields))` */
  function RecordLine(columns: seq<string>, row: seq<string>): (r: string)
    ensures |r| > 0 && r[|r| - 1] == ';'
    ensures |columns| == 0 || |row| == 0 ==> r == ";"
  {
    Join("; ", Fields(columns, row)) + ";"
  }

  /** The fields after the first, each as ` column=value;` */
  function LaterFields(columns: seq<string>, row: seq<string>): string {
    if |columns| == 0 || |row| == 0 then ""
    else " " + Field(columns[0], row[0]) + ";" + LaterFields(columns[1..], row[1..])
  }

  /** The record line as its ';'-separated pieces: the first field, then
      every later field behind a space. */
  lemma {:induction false} RecordLinePieces(columns: seq<string>, row: seq<string>)
    requires |columns| > 0 && |row| > 0
    ensures RecordLine(columns, row)
            == Field(columns[0], row[0]) + ";" + LaterFields(columns[1..], row[1..])
    decreases |row|
  {
    var c1 := columns[1..];
    var r1 := row[1..];
    var f0 := Field(columns[0], row[0]);
    assert Fields(columns, row) == [f0] + Fields(c1, r1);
    if |c1| == 0 || |r1| == 0 {
      assert Join("; ", Fields(columns, row)) == f0;
    } else {
      RecordLinePieces(c1, r1);
      var f1 := Field(c1[0], r1[0]);
      var later := LaterFields(c1[1..], r1[1..]);
      assert Join("; ", Fields(c1, r1)) + ";" == f1 + ";" + later;
      assert Join("; ", Fields(columns, row)) == f0 + "; " + Join("; ", Fields(c1, r1));
      assert LaterFields(c1, r1) == " " + f1 + ";" + later;
      assert f0 + "; " + (f1 + ";" + later) == f0 + ";" + (" " + f1 + ";" + later);
    }
  }

  /** The row `main` would log were each value whose column is listed (by
      some suffix) the redaction */
  function RedactRow(alts: seq<string>, redaction: string, columns: seq<string>, row: seq<string>): (r: seq<string>)
    ensures |r| == |row|
    ensures forall i :: 0 <= i < |row| ==>
              r[i] == (if i < |columns| && SuffixListed(alts, columns[i]) then redaction else row[i])
  {
    if |columns| == 0 || |row| == 0 then row
    else
      [if SuffixListed(alts, columns[0]) then redaction else row[0]]
      + RedactRow(alts, redaction, columns[1..], row[1..])
  }

  /** Text a record line can carry without ambiguity */
  predicate CleanText(t: string) {
    '=' !in t && ';' !in t
  }

  predicate Clean(texts: seq<string>) {
    forall i :: 0 <= i < |texts| ==> CleanText(texts[i])
  }

  /** Fields the record-line lemmas allow: no '=', ';' or space in them */
  predicate PlainFields(alts: seq<string>) {
    AltsAvoid(alts, '=') && AltsAvoid(alts, ';') && AltsAvoid(alts, ' ')
  }

  /** One field behind `lead`, redacted on its own */
  lemma PieceRedacted(alts: seq<string>, redaction: string, lead: string, column: string, value: string)
    requires PlainFields(alts) && '=' !in lead && ';' !in lead && (|lead| == 0 || lead[|lead| - 1] == ' ')
    requires '=' !in column && ';' !in column && '=' !in value && ';' !in value
    ensures var key := lead + column;
            Redact(alts, redaction, key + "=" + value, ';')
            == key + "=" + (if SuffixListed(alts, column) then redaction else value)
  {
    var key := lead + column;
    assert '=' !in key && ';' !in key by {
      assert forall i :: 0 <= i < |key| ==> key[i] in lead || key[i] in column;
    }
    LeadIrrelevant(alts, lead, column);
    FieldRedacted(alts, redaction, key, value, ';');
  }

  /** The first field of a record line behind `lead`, and the rest */
  lemma FirstPieceSplits(alts: seq<string>, redaction: string, lead: string, column: string, value: string, b: string)
    requires PlainFields(alts) && '=' !in lead && ';' !in lead && (|lead| == 0 || lead[|lead| - 1] == ' ')
    requires '=' !in column && ';' !in column && '=' !in value && ';' !in value
    ensures Redact(alts, redaction, lead + Field(column, value) + ";" + b, ';')
            == lead + Field(column, if SuffixListed(alts, column) then redaction else value)
               + ";" + Redact(alts, redaction, b, ';')
  {
    var a := lead + Field(column, value);
    var key := lead + column;
    var v := if SuffixListed(alts, column) then redaction else value;
    assert a == key + "=" + value;
    assert ';' !in a;
    assert lead + Field(column, value) + ";" + b == a + [';'] + b;
    SeparatorSplits(alts, redaction, a, b, ';');
    PieceRedacted(alts, redaction, lead, column, value);
    FieldAssociates(lead, column, v);
    assert Redact(alts, redaction, a, ';') == lead + Field(column, v);
  }

  lemma FieldAssociates(lead: string, column: string, value: string)
    ensures (lead + column) + "=" + value == lead + Field(column, value)
  {
  }

  lemma {:induction false} LaterFieldsRedacted(alts: seq<string>, redaction: string, columns: seq<string>, row: seq<string>)
    requires PlainFields(alts) && Clean(columns) && Clean(row)
    ensures Redact(alts, redaction, LaterFields(columns, row), ';')
            == LaterFields(columns, RedactRow(alts, redaction, columns, row))
    decreases |row|
  {
    if |columns| > 0 && |row| > 0 {
      var red := RedactRow(alts, redaction, columns, row);
      assert '=' !in columns[0] && ';' !in columns[0] && '=' !in row[0] && ';' !in row[0];
      var b := LaterFields(columns[1..], row[1..]);
      assert LaterFields(columns, row) == " " + Field(columns[0], row[0]) + ";" + b;
      FirstPieceSplits(alts, redaction, " ", columns[0], row[0], b);
      assert Clean(columns[1..]) && Clean(row[1..]);
      LaterFieldsRedacted(alts, redaction, columns[1..], row[1..]);
      assert red[1..] == RedactRow(alts, redaction, columns[1..], row[1..]);
      assert LaterFields(columns, red) == " " + Field(columns[0], red[0]) + ";" + LaterFields(columns[1..], red[1..]);
    }
  }

  /** The record line of `main`, behind any `lead` free of '=' and ';' and
      ending in a space: every field keeps its column, and its value becomes
      the redaction exactly when some suffix of the column is listed. */
  lemma RecordRedacted(alts: seq<string>, redaction: string, lead: string, columns: seq<string>, row: seq<string>)
    requires PlainFields(alts) && Clean(columns) && Clean(row)
    requires '=' !in lead && ';' !in lead && (|lead| == 0 || lead[|lead| - 1] == ' ')
    ensures Redact(alts, redaction, lead + RecordLine(columns, row), ';')
            == lead + RecordLine(columns, RedactRow(alts, redaction, columns, row))
  {
    if |columns| == 0 || |row| == 0 {
      EmptyRecordRedacted(alts, redaction, lead, columns, row);
    } else {
      var red := RedactRow(alts, redaction, columns, row);
      RecordLinePieces(columns, row);
      RecordLinePieces(columns, red);
      var b := LaterFields(columns[1..], row[1..]);
      var f := Field(columns[0], row[0]);
      Associates(lead, f, b);
      assert '=' !in columns[0] && ';' !in columns[0] && '=' !in row[0] && ';' !in row[0];
      FirstPieceSplits(alts, redaction, lead, columns[0], row[0], b);
      assert Clean(columns[1..]) && Clean(row[1..]);
      LaterFieldsRedacted(alts, redaction, columns[1..], row[1..]);
      assert red[1..] == RedactRow(alts, redaction, columns[1..], row[1..]);
      var f' := Field(columns[0], red[0]);
      var b' := LaterFields(columns[1..], red[1..]);
      assert Redact(alts, redaction, b, ';') == b';
      Associates(lead, f', b');
    }
  }

  lemma Associates(lead: string, f: string, b: string)
    ensures lead + (f + ";" + b) == lead + f + ";" + b
  {
  }

  /** `RecordRedacted` for a row with no fields: the line is ";" */
  lemma EmptyRecordRedacted(alts: seq<string>, redaction: string, lead: string, columns: seq<string>, row: seq<string>)
    requires PlainFields(alts) && '=' !in lead && ';' !in lead
    requires |columns| == 0 || |row| == 0
    ensures Redact(alts, redaction, lead + RecordLine(columns, row), ';')
            == lead + RecordLine(columns, RedactRow(alts, redaction, columns, row))
  {
    assert Fields(columns, row) == [];
    assert RedactRow(alts, redaction, columns, row) == row;
    assert lead + RecordLine(columns, row) == lead + [';'] + "";
    SeparatorSplits(alts, redaction, lead, "", ';');
    NoEqualsUnchanged(alts, redaction, lead, ';');
  }

  // ----- `RedactingFormatter` and `main` -----

  /** `RedactingFormatter.REDACTION` */
  const Redaction: string := "***"

  /** `RedactingFormatter.SEPARATOR` */
  const Separator: string := ";"

  /** The formatter's separator is the one character ';', which its
      redaction avoids along with '\'. */
  lemma FormatterConstants()
    ensures |Separator| == 1 && Separator[0] == ';'
    ensures '\\' !in Redaction && ';' !in Redaction
  {
  }

  /** `PII_FIELDS` */
  const PiiFields: seq<string> := ["name", "email", "phone", "ssn", "password"]

  /** The columns `main` selects, `"name,email,...".split(',')` */
  const MainColumns: seq<string> :=
    ["name", "email", "phone", "ssn", "password", "ip", "last_login", "user_agent"]

  function Spaces(n: nat): (r: string)
    ensures |r| == n && forall i :: 0 <= i < n ==> r[i] == ' '
  {
    if n == 0 then "" else " " + Spaces(n - 1)
  }

  /** `%-15s`: the text padded with spaces on the right to the width */
  function LeftJustify(s: string, width: nat): string {
    if |s| < width then s + Spaces(width - |s|) else s
  }

  /** The text `logging.Formatter.format` puts before the message under
      `RedactingFormatter.FORMAT`; the logger name, level name and
      `asctime` (a clock reading) are inputs. */
  function Header(loggerName: string, levelName: string, asctime: string): (r: string)
    ensures |r| >= 14 && r[..12] == "[HOLBERTON] " && r[|r| - 2..] == ": "
    ensures |r| == 16 + |loggerName| + |levelName| + (if |asctime| < 15 then 15 else |asctime|)
  {
    "[HOLBERTON] " + loggerName + " " + levelName + " " + LeftJustify(asctime, 15) + ": "
  }

  /** `RedactingFormatter(fields).format(record)`: the formatted record with
      `filter_datum` applied under REDACTION and SEPARATOR. */
  function Format(fields: seq<string>, loggerName: string, levelName: string, asctime: string, message: string): (r: string)
    requires forall j :: 0 <= j < |fields| ==> NoRegexMeta(fields[j])
    ensures multiset(r)[';'] == multiset(Header(loggerName, levelName, asctime) + message)[';']
  {
    FormatterConstants();
    FilterDatum(fields, Redaction, Header(loggerName, levelName, asctime) + message, Separator)
  }

  /** A header built from clean parts has no '=' nor ';' and ends in a space. */
  lemma HeaderClean(loggerName: string, levelName: string, asctime: string)
    requires CleanText(loggerName) && CleanText(levelName) && CleanText(asctime)
    ensures var h := Header(loggerName, levelName, asctime);
            '=' !in h && ';' !in h && h[|h| - 1] == ' '
  {
    var pad := LeftJustify(asctime, 15);
    assert '=' !in pad && ';' !in pad;
  }

  /** The formatter over a record line: the header is untouched, and in the
      line every field keeps its column while its value becomes "***"
      exactly when a suffix of the column is a configured field. */
  lemma FormatRecordLine(fields: seq<string>, loggerName: string, levelName: string, asctime: string,
                         columns: seq<string>, row: seq<string>)
    requires forall j :: 0 <= j < |fields| ==> NoRegexMeta(fields[j])
    requires PlainFields(fields) && Clean(columns) && Clean(row)
    requires CleanText(loggerName) && CleanText(levelName) && CleanText(asctime)
    ensures Format(fields, loggerName, levelName, asctime, RecordLine(columns, row))
            == Header(loggerName, levelName, asctime)
               + RecordLine(columns, RedactRow(Alts(fields), Redaction, columns, row))
  {
    HeaderClean(loggerName, levelName, asctime);
    assert PlainFields(Alts(fields));
    RecordRedacted(Alts(fields), Redaction, Header(loggerName, levelName, asctime), columns, row);
  }

  /** Which of `main`'s columns `PII_FIELDS` redacts: the first five */
  lemma MainColumnsListed(i: int)
    requires 0 <= i < |MainColumns|
    ensures SuffixListed(PiiFields, MainColumns[i]) <==> i < 5
  {
    if i == 5 {
      assert "ip"[1..] == "p" && "p"[1..] == "";
    } else if i == 6 {
      NoListedSuffix(PiiFields, "last_login");
    } else if i == 7 {
      NoListedSuffix(PiiFields, "user_agent");
    }
  }

  /** A key none of whose suffixes is a field of `PII_FIELDS` */
  lemma NoListedSuffix(alts: seq<string>, c: string)
    requires alts == PiiFields && (c == "last_login" || c == "user_agent")
    ensures !SuffixListed(alts, c)
  {
    forall k | 0 <= k <= |c|
      ensures c[k..] !in alts
    {
      if c == "last_login" { LastLoginSuffix(k); } else { UserAgentSuffix(k); }
    }
    SuffixListedMeans(alts, c);
  }

  lemma LastLoginSuffix(k: int)
    requires 0 <= k <= 10
    ensures "last_login"[k..] !in PiiFields
  {
    var c := "last_login";
    assert c[1..] == "ast_login" && c[2..] == "st_login" && c[3..] == "t_login";
    assert c[4..] == "_login" && c[5..] == "login" && c[6..] == "ogin";
    assert c[7..] == "gin" && c[8..] == "in" && c[9..] == "n" && c[10..] == "";
  }

  lemma UserAgentSuffix(k: int)
    requires 0 <= k <= 10
    ensures "user_agent"[k..] !in PiiFields
  {
    var c := "user_agent";
    assert c[1..] == "ser_agent" && c[2..] == "er_agent" && c[3..] == "r_agent";
    assert c[4..] == "_agent" && c[5..] == "agent" && c[6..] == "gent";
    assert c[7..] == "ent" && c[8..] == "nt" && c[9..] == "t" && c[10..] == "";
  }

  /** `RedactRow` is fixed by its entries. */
  lemma RedactRowIs(alts: seq<string>, redaction: string, columns: seq<string>, row: seq<string>, masked: seq<string>)
    requires |masked| == |row|
    requires forall i :: 0 <= i < |row| ==>
               masked[i] == (if i < |columns| && SuffixListed(alts, columns[i]) then redaction else row[i])
    ensures RedactRow(alts, redaction, columns, row) == masked
  {
  }

  /** The row with its first five values replaced by the redaction */
  function PiiMasked(row: seq<string>): (r: seq<string>)
    requires |row| == 8
    ensures |r| == 8 && forall i :: 0 <= i < 8 ==> r[i] == (if i < 5 then Redaction else row[i])
  {
    [Redaction, Redaction, Redaction, Redaction, Redaction, row[5], row[6], row[7]]
  }

  /** The line `main` logs for a row of eight clean values: name, email,
      phone, ssn and password become "***"; ip, last_login and user_agent
      keep their values. */
  lemma MainLineRedacted(row: seq<string>, asctime: string)
    requires |row| == 8 && Clean(row) && CleanText(asctime)
    ensures Format(PiiFields, "user_data", "INFO", asctime, RecordLine(MainColumns, row))
            == Header("user_data", "INFO", asctime)
               + RecordLine(MainColumns, PiiMasked(row))
  {
    MainConstantsPlain();
    FormatRecordLine(PiiFields, "user_data", "INFO", asctime, MainColumns, row);
    MainRowMasked(row);
  }

  lemma MainConstantsPlain()
    ensures Clean(MainColumns) && PlainFields(PiiFields)
    ensures forall j :: 0 <= j < |PiiFields| ==> NoRegexMeta(PiiFields[j])
    ensures CleanText("user_data") && CleanText("INFO")
  {
    MainColumnsClean();
    PiiFieldsPlain();
  }

  lemma MainColumnsClean()
    ensures Clean(MainColumns)
  {
    forall i | 0 <= i < |MainColumns|
      ensures CleanText(MainColumns[i])
    {
      var c := MainColumns[i];
      assert forall k :: 0 <= k < |c| ==> c[k] != '=' && c[k] != ';';
    }
  }

  lemma PiiFieldsPlain()
    ensures PlainFields(PiiFields)
    ensures forall j :: 0 <= j < |PiiFields| ==> NoRegexMeta(PiiFields[j])
  {
    forall j | 0 <= j < |PiiFields|
      ensures '=' !in PiiFields[j] && ';' !in PiiFields[j] && ' ' !in PiiFields[j]
      ensures NoRegexMeta(PiiFields[j])
    {
      LowerCasePlain(PiiFields[j]);
    }
  }

  /** Each field of `PII_FIELDS` is a lower-case word, so plain text to the
      pattern and to the record line. */
  lemma LowerCasePlain(f: string)
    requires f in PiiFields
    ensures '=' !in f && ';' !in f && ' ' !in f && NoRegexMeta(f)
  {
    assert forall k :: 0 <= k < |f| ==> 'a' <= f[k] <= 'z';
  }

  /** `PII_FIELDS` redacts the first five of `main`'s eight columns. */
  lemma MainRowMasked(row: seq<string>)
    requires |row| == 8
    ensures RedactRow(PiiFields, Redaction, MainColumns, row) == PiiMasked(row)
  {
    PiiMaskedEntries(row);
    RedactRowIs(PiiFields, Redaction, MainColumns, row, PiiMasked(row));
  }

  /** `PiiMasked` redacts exactly the columns `PII_FIELDS` lists. */
  lemma PiiMaskedEntries(row: seq<string>)
    requires |row| == 8
    ensures forall i :: 0 <= i < |row| ==>
              PiiMasked(row)[i]
              == (if i < |MainColumns| && SuffixListed(PiiFields, MainColumns[i]) then Redaction else row[i])
  {
    forall i | 0 <= i < 8
      ensures PiiMasked(row)[i]
              == (if i < |MainColumns| && SuffixListed(PiiFields, MainColumns[i]) then Redaction else row[i])
    {
      MainColumnsListed(i);
    }
  }

  /** A one-field line whose column ends in a listed field comes back with
      its value replaced by the redaction. */
  lemma ListedColumnLine(fields: seq<string>, redaction: string, column: string, value: string)
    requires WellFormed(fields, redaction, ";") && PlainFields(Alts(fields))
    requires CleanText(column) && CleanText(value) && SuffixListed(Alts(fields), column)
    ensures FilterDatum(fields, redaction, column + "=" + value + ";", ";") == column + "=" + redaction + ";"
  {
    var alts := Alts(fields);
    var line := column + "=" + value + ";";
    LoneField(column, value);
    LoneField(column, redaction);
    FirstPieceSplits(alts, redaction, "", column, value, "");
    assert Redact(alts, redaction, "", ';') == "";
    assert FilterDatum(fields, redaction, line, ";") == Redact(alts, redaction, line, ';');
  }

  lemma LoneField(column: string, value: string)
    ensures "" + Field(column, value) + ";" + "" == column + "=" + value + ";"
  {
  }

  /** `username=` is redacted through the field `name`. */
  lemma UsernameRedactedThroughName(value: string)
    requires CleanText(value)
    ensures FilterDatum(["name"], "***", "username" + "=" + value + ";", ";") == "username" + "=" + "***" + ";"
  {
    UsernameListed();
    NameFieldPlain();
    ListedColumnLine(["name"], "***", "username", value);
  }

  lemma NameFieldPlain()
    ensures WellFormed(["name"], "***", ";") && PlainFields(Alts(["name"])) && CleanText("username")
  {
    var f := "name";
    assert forall k :: 0 <= k < |f| ==> 'a' <= f[k] <= 'z';
    var u := "username";
    assert forall k :: 0 <= k < |u| ==> 'a' <= u[k] <= 'z';
  }

  lemma UsernameListed()
    ensures SuffixListed(["name"], "username")
  {
    var u := "username";
    assert u[1..][1..][1..][1..] == "name";
  }

  /** The record line of a single field */
  lemma OneFieldLine(column: string, value: string)
    ensures RecordLine([column], [value]) == column + "=" + value + ";"
  {
    assert Fields([column], [value]) == [Field(column, value)];
  }

  /** Every text ends in the empty text, which the empty list of fields
      lists. */
  lemma {:induction false} EmptySuffixListed(key: string)
    ensures SuffixListed([""], key)
    decreases |key|
  {
    if |key| > 0 {
      EmptySuffixListed(key[1..]);
    }
  }

  /** An empty field list redacts every field of a record line. */
  lemma EmptyListRedactsAll(redaction: string, columns: seq<string>, row: seq<string>)
    requires Clean(columns) && Clean(row) && '\\' !in redaction
    ensures var red := RedactRow([""], redaction, columns, row);
            && FilterDatum([], redaction, RecordLine(columns, row), ";") == RecordLine(columns, red)
            && forall i :: 0 <= i < |columns| && i < |row| ==> red[i] == redaction
  {
    assert Alts([]) == [""];
    assert PlainFields([""]);
    RecordRedacted([""], redaction, "", columns, row);
    assert "" + RecordLine(columns, row) == RecordLine(columns, row);
    var red := RedactRow([""], redaction, columns, row);
    assert "" + RecordLine(columns, red) == RecordLine(columns, red);
    forall i | 0 <= i < |columns| && i < |row|
      ensures red[i] == redaction
    {
      EmptySuffixListed(columns[i]);
    }
  }
}
