/** String helpers of the fetcher: the camelCase to snake_case conversion applied
    to column names, its lifting to a list of columns, and the (disabled)
    datetime inference applied to request bounds. */
module Utils {
  import opened Wrappers

  predicate IsUpper(c: char) { 'A' <= c <= 'Z' }
  predicate IsLower(c: char) { 'a' <= c <= 'z' }
  predicate IsDigit(c: char) { '0' <= c <= '9' }

  /** No ASCII capital letter occurs in `s`. */
  predicate NoUpper(s: string) {
    forall i :: 0 <= i < |s| ==> !IsUpper(s[i])
  }

  /** `r` is `s` with some '_' characters inserted: deleting those from `r` gives `s`. */
  ghost predicate InsertsUnderscores(r: string, s: string)
    decreases |r|
  {
    if r == [] then s == []
    else
      || (s != [] && r[0] == s[0] && InsertsUnderscores(r[1..], s[1..]))
      || (r[0] == '_' && InsertsUnderscores(r[1..], s))
  }

  // ---------------------------------------------------------------------------
  // Lower-casing (`str.lower`), on ASCII letters
  // ---------------------------------------------------------------------------

  function LowerChar(c: char): (d: char)
    ensures !IsUpper(d)
    ensures IsUpper(c) ==> IsLower(d) && d as int == c as int + 32
    ensures !IsUpper(c) ==> d == c
  {
    if IsUpper(c) then (c as int + 32) as char else c
  }

  function Lower(s: string): (r: string)
    ensures |r| == |s|
    ensures forall i :: 0 <= i < |s| ==> r[i] == LowerChar(s[i])
  {
    if s == [] then [] else [LowerChar(s[0])] + Lower(s[1..])
  }

  // ---------------------------------------------------------------------------
  // First substitution: re.sub("(.)([A-Z][a-z]+)", r"\1_\2", name)
  // ---------------------------------------------------------------------------

  /** Length of the longest prefix of `t` made of lower-case letters: where the
      greedy `[a-z]+` stops. */
  function LowerRunLength(t: string): (n: nat)
    ensures n <= |t|
    ensures forall i :: 0 <= i < n ==> IsLower(t[i])
    ensures n == |t| || !IsLower(t[n])
  {
    if t != [] && IsLower(t[0]) then 1 + LowerRunLength(t[1..]) else 0
  }

  /** The pattern `(.)([A-Z][a-z]+)` matches at the start of `s`
      (`.` is any character but a newline). */
  predicate CapitalWordAt(s: string) {
    |s| >= 3 && s[0] != '\n' && IsUpper(s[1]) && IsLower(s[2])
  }

  /** Left-to-right scan of the first substitution: at a match, the preceding
      character, '_' and the capitalised word are emitted and the scan resumes
      after the word (so the last letter of the word cannot start a new match);
      otherwise one character is copied and the scan moves on by one. */
  function CapitalWordPass(s: string): (r: string)
    decreases |s|
  {
    if CapitalWordAt(s) then
      var j := 2 + LowerRunLength(s[2..]);
      [s[0], '_'] + s[1..j] + CapitalWordPass(s[j..])
    else if s == [] then []
    else [s[0]] + CapitalWordPass(s[1..])
  }

  // ---------------------------------------------------------------------------
  // Second substitution: re.sub("([a-z0-9])([A-Z])", r"\1_\2", name)
  // ---------------------------------------------------------------------------

  predicate CaseBoundaryAt(s: string) {
    |s| >= 2 && (IsLower(s[0]) || IsDigit(s[0])) && IsUpper(s[1])
  }

  /** Left-to-right scan of the second substitution; a match consumes both characters. */
  function CaseBoundaryPass(s: string): (r: string)
    decreases |s|
  {
    if CaseBoundaryAt(s) then [s[0], '_', s[1]] + CaseBoundaryPass(s[2..])
    else if s == [] then []
    else [s[0]] + CaseBoundaryPass(s[1..])
  }

  /** camel_to_snake: the two substitutions in order, then lower-casing. */
  function CamelToSnake(name: string): (r: string)
    ensures NoUpper(r)
  {
    Lower(CaseBoundaryPass(CapitalWordPass(name)))
  }

  /** ensure_camel_columns: a new column list, each name passed through
      camel_to_snake, in the same order. The argument is a value and so is
      never modified. */
  function EnsureCamelColumns(columns: seq<string>): (r: seq<string>)
    ensures |r| == |columns|
    ensures forall i :: 0 <= i < |columns| ==> r[i] == CamelToSnake(columns[i])
  {
    if columns == [] then []
    else
      var rest := EnsureCamelColumns(columns[1..]);
      assert forall i :: 1 <= i < |columns| ==> columns[1..][i - 1] == columns[i];
      [CamelToSnake(columns[0])] + rest
  }

  /** _infer_datetime: the function warns and returns None before any conversion
      is reached; every argument is mapped to "no bound". The integer inside
      `Option<int>` is the epoch-seconds value the unreachable lines would compute. */
  function InferDatetime<T>(dt: T): (r: Option<int>)
    ensures r.None?
  {
    None
  }

  // ---------------------------------------------------------------------------
  // Lemmas on InsertsUnderscores
  // ---------------------------------------------------------------------------

  lemma {:induction false} InsertsUnderscoresRefl(s: string)
    ensures InsertsUnderscores(s, s)
    decreases |s|
  {
    if s != [] { InsertsUnderscoresRefl(s[1..]); }
  }

  /** One more underscore in front is still an insertion of underscores. */
  lemma InsertsUnderscoresUnderscore(r: string, s: string)
    requires InsertsUnderscores(r, s)
    ensures InsertsUnderscores(['_'] + r, s)
  {
    assert (['_'] + r)[1..] == r;
  }

  lemma {:induction false} InsertsUnderscoresPrefix(p: string, r: string, s: string)
    requires InsertsUnderscores(r, s)
    ensures InsertsUnderscores(p + r, p + s)
    decreases |p|
  {
    if p == [] {
      assert p + r == r && p + s == s;
    } else {
      InsertsUnderscoresPrefix(p[1..], r, s);
      assert (p + r)[1..] == p[1..] + r;
      assert (p + s)[1..] == p[1..] + s;
    }
  }

  lemma {:induction false} InsertsUnderscoresTrans(a: string, b: string, c: string)
    requires InsertsUnderscores(a, b) && InsertsUnderscores(b, c)
    ensures InsertsUnderscores(a, c)
    decreases |a|
  {
    if a == [] {
    } else if b != [] && a[0] == b[0] && InsertsUnderscores(a[1..], b[1..]) {
      if c != [] && b[0] == c[0] && InsertsUnderscores(b[1..], c[1..]) {
        InsertsUnderscoresTrans(a[1..], b[1..], c[1..]);
      } else {
        InsertsUnderscoresTrans(a[1..], b[1..], c);
      }
    } else {
      InsertsUnderscoresTrans(a[1..], b, c);
    }
  }

  lemma {:induction false} InsertsUnderscoresLower(r: string, s: string)
    requires InsertsUnderscores(r, s)
    ensures InsertsUnderscores(Lower(r), Lower(s))
    decreases |r|
  {
    if r != [] {
      assert Lower(r)[1..] == Lower(r[1..]);
      if s != [] && r[0] == s[0] && InsertsUnderscores(r[1..], s[1..]) {
        InsertsUnderscoresLower(r[1..], s[1..]);
        assert Lower(s)[1..] == Lower(s[1..]);
      } else {
        InsertsUnderscoresLower(r[1..], s);
      }
    }
  }

  /** Inserting characters never shortens a string. */
  lemma {:induction false} InsertsUnderscoresLength(r: string, s: string)
    requires InsertsUnderscores(r, s)
    ensures |r| >= |s|
    decreases |r|
  {
    if r != [] {
      if s != [] && r[0] == s[0] && InsertsUnderscores(r[1..], s[1..]) {
        InsertsUnderscoresLength(r[1..], s[1..]);
      } else {
        InsertsUnderscoresLength(r[1..], s);
      }
    }
  }

  // ---------------------------------------------------------------------------
  // Properties of the passes and of camel_to_snake
  // ---------------------------------------------------------------------------

  /** A match of the first pattern only inserts '_', given that the rest of
      the scan does. */
  lemma CapitalWordPassInsertsAtMatch(s: string)
    requires CapitalWordAt(s)
    requires var j := 2 + LowerRunLength(s[2..]); InsertsUnderscores(CapitalWordPass(s[j..]), s[j..])
    ensures InsertsUnderscores(CapitalWordPass(s), s)
  {
    var j := 2 + LowerRunLength(s[2..]);
    SplitThree(s, j);
    InsertsUnderscoresAfterMatch(s[0], s[1..j], CapitalWordPass(s[j..]), s[j..]);
  }

  lemma SplitThree(s: string, j: nat)
    requires 1 <= j <= |s|
    ensures s == [s[0]] + s[1..j] + s[j..]
  {
    assert s[1..] == s[1..j] + s[j..];
    assert [s[0]] + s[1..] == s;
  }

  /** Emitting a character, '_' and a word in front of a result that only
      inserts underscores into `tail` only inserts underscores. */
  lemma InsertsUnderscoresAfterMatch(c: char, word: string, rest: string, tail: string)
    requires InsertsUnderscores(rest, tail)
    ensures InsertsUnderscores([c, '_'] + word + rest, [c] + word + tail)
  {
    InsertsUnderscoresPrefix(word, rest, tail);
    InsertsUnderscoresUnderscore(word + rest, word + tail);
    InsertsUnderscoresPrefix([c], ['_'] + (word + rest), word + tail);
    PairAssoc(c, '_', word, rest);
    ConsAssoc('_', word, rest);
    assert [c] + (word + tail) == [c] + word + tail;
  }

  lemma {:induction false} CapitalWordPassInserts(s: string)
    ensures InsertsUnderscores(CapitalWordPass(s), s)
    decreases |s|
  {
    if CapitalWordAt(s) {
      CapitalWordPassInserts(s[2 + LowerRunLength(s[2..])..]);
      CapitalWordPassInsertsAtMatch(s);
    } else if s != [] {
      CapitalWordPassInserts(s[1..]);
      InsertsUnderscoresPrefix([s[0]], CapitalWordPass(s[1..]), s[1..]);
      assert [s[0]] + s[1..] == s;
    }
  }

  lemma {:induction false} CaseBoundaryPassInserts(s: string)
    ensures InsertsUnderscores(CaseBoundaryPass(s), s)
    decreases |s|
  {
    if CaseBoundaryAt(s) {
      CaseBoundaryPassInserts(s[2..]);
      CaseBoundaryPassInsertsAtMatch(s);
    } else if s != [] {
      CaseBoundaryPassInserts(s[1..]);
      InsertsUnderscoresPrefix([s[0]], CaseBoundaryPass(s[1..]), s[1..]);
      assert [s[0]] + s[1..] == s;
    }
  }

  /** At a match the second pass inserts one '_' and goes on as on the rest. */
  lemma CaseBoundaryPassInsertsAtMatch(s: string)
    requires CaseBoundaryAt(s) && InsertsUnderscores(CaseBoundaryPass(s[2..]), s[2..])
    ensures InsertsUnderscores(CaseBoundaryPass(s), s)
  {
    var rest := CaseBoundaryPass(s[2..]);
    InsertsUnderscoresPrefix([s[1]], rest, s[2..]);
    assert [s[1]] + s[2..] == s[1..];
    assert InsertsUnderscores(['_', s[1]] + rest, s[1..]) by {
      assert (['_', s[1]] + rest)[1..] == [s[1]] + rest;
    }
    InsertsUnderscoresPrefix([s[0]], ['_', s[1]] + rest, s[1..]);
    assert [s[0]] + s[1..] == s;
    assert [s[0]] + (['_', s[1]] + rest) == CaseBoundaryPass(s);
  }

  /** camel_to_snake only inserts '_' into the lower-cased name, so it never
      shortens it. */
  lemma CamelToSnakeInsertsUnderscores(name: string)
    ensures InsertsUnderscores(CamelToSnake(name), Lower(name))
    ensures |CamelToSnake(name)| >= |name|
  {
    var p1 := CapitalWordPass(name);
    var p2 := CaseBoundaryPass(p1);
    CapitalWordPassInserts(name);
    CaseBoundaryPassInserts(p1);
    InsertsUnderscoresTrans(p2, p1, name);
    InsertsUnderscoresLower(p2, name);
    InsertsUnderscoresLength(CamelToSnake(name), Lower(name));
  }

  lemma {:induction false} CapitalWordPassNoUpper(s: string)
    requires NoUpper(s)
    ensures CapitalWordPass(s) == s
    decreases |s|
  {
    if s != [] {
      assert !CapitalWordAt(s) by { if |s| >= 2 { assert !IsUpper(s[1]); } }
      CapitalWordPassNoUpper(s[1..]);
      assert [s[0]] + s[1..] == s;
    }
  }

  lemma {:induction false} CaseBoundaryPassNoUpper(s: string)
    requires NoUpper(s)
    ensures CaseBoundaryPass(s) == s
    decreases |s|
  {
    if s != [] {
      assert !CaseBoundaryAt(s) by { if |s| >= 2 { assert !IsUpper(s[1]); } }
      CaseBoundaryPassNoUpper(s[1..]);
      assert [s[0]] + s[1..] == s;
    }
  }

  /** A name with no capital letter comes back unchanged. */
  lemma CamelToSnakeNoUpper(name: string)
    requires NoUpper(name)
    ensures CamelToSnake(name) == name
  {
    CapitalWordPassNoUpper(name);
    CaseBoundaryPassNoUpper(name);
  }

  /** camel_to_snake is idempotent. */
  lemma CamelToSnakeIdempotent(name: string)
    ensures CamelToSnake(CamelToSnake(name)) == CamelToSnake(name)
  {
    CamelToSnakeNoUpper(CamelToSnake(name));
  }

  /** ensure_camel_columns is idempotent as well. */
  lemma {:induction false} EnsureCamelColumnsIdempotent(columns: seq<string>)
    ensures EnsureCamelColumns(EnsureCamelColumns(columns)) == EnsureCamelColumns(columns)
  {
    var once := EnsureCamelColumns(columns);
    forall i | 0 <= i < |once|
      ensures EnsureCamelColumns(once)[i] == once[i]
    {
      CamelToSnakeIdempotent(columns[i]);
    }
  }

  // ---------------------------------------------------------------------------
  // Scanning steps of the two substitutions
  // ---------------------------------------------------------------------------

  /** Where the first substitution finds no match, the scan copies characters. */
  lemma {:induction false} CapitalWordPassCopy(p: string, s: string)
    requires forall i :: 0 <= i < |p| ==> !CapitalWordAt((p + s)[i..])
    ensures CapitalWordPass(p + s) == p + CapitalWordPass(s)
    decreases |p|
  {
    if p == [] {
      assert p + s == s;
    } else {
      NoCapitalWordShift(p, s);
      CapitalWordPassCopy(p[1..], s);
      SplitFirst(p, s);
      CapitalWordPassCons(p[0], p[1..] + s);
      SplitFirst(p, CapitalWordPass(s));
    }
  }

  /** Where the first pattern does not match, the scan copies one character. */
  lemma CapitalWordPassCons(c: char, t: string)
    requires !CapitalWordAt([c] + t)
    ensures CapitalWordPass([c] + t) == [c] + CapitalWordPass(t)
  {
    assert ([c] + t)[1..] == t;
  }

  lemma NoCapitalWordShift(p: string, s: string)
    requires p != []
    requires forall i :: 0 <= i < |p| ==> !CapitalWordAt((p + s)[i..])
    ensures !CapitalWordAt([p[0]] + (p[1..] + s))
    ensures forall i :: 0 <= i < |p[1..]| ==> !CapitalWordAt((p[1..] + s)[i..])
  {
    assert (p + s)[0..] == p + s == [p[0]] + (p[1..] + s);
    forall i | 0 <= i < |p[1..]|
      ensures !CapitalWordAt((p[1..] + s)[i..])
    {
      assert (p[1..] + s)[i..] == (p + s)[i + 1..];
    }
  }

  lemma {:induction false} LowerRunOfWord(w: string, rest: string)
    requires forall i :: 0 <= i < |w| ==> IsLower(w[i])
    requires rest == [] || !IsLower(rest[0])
    ensures LowerRunLength(w + rest) == |w|
    decreases |w|
  {
    if w == [] {
      assert w + rest == rest;
    } else {
      assert (w + rest)[1..] == w[1..] + rest;
      LowerRunOfWord(w[1..], rest);
    }
  }

  /** A character followed by a capitalised word whose lower-case run ends the
      match: the word is emitted after '_' and the scan resumes after it. */
  lemma CapitalWordPassMatch(c: char, w: string, rest: string)
    requires c != '\n' && IsCapitalWord(w)
    requires rest == [] || !IsLower(rest[0])
    ensures CapitalWordPass([c] + w + rest) == [c, '_'] + w + CapitalWordPass(rest)
  {
    var s := [c] + w + rest;
    assert s[2..] == w[1..] + rest;
    LowerRunOfWord(w[1..], rest);
    assert s[1..1 + |w|] == w;
    assert s[1 + |w|..] == rest;
  }

  /** Where the second substitution finds no match, the scan copies characters. */
  lemma {:induction false} CaseBoundaryPassCopy(p: string, s: string)
    requires forall i :: 0 <= i < |p| ==> !CaseBoundaryAt((p + s)[i..])
    ensures CaseBoundaryPass(p + s) == p + CaseBoundaryPass(s)
    decreases |p|
  {
    if p == [] {
      assert p + s == s;
    } else {
      assert !CaseBoundaryAt((p + s)[0..]);
      assert (p + s)[0..] == p + s;
      assert (p + s)[1..] == p[1..] + s;
      forall i | 0 <= i < |p[1..]|
        ensures !CaseBoundaryAt((p[1..] + s)[i..])
      {
        assert (p[1..] + s)[i..] == (p + s)[i + 1..];
      }
      CaseBoundaryPassCopy(p[1..], s);
      assert [p[0]] + (p[1..] + CaseBoundaryPass(s)) == p + CaseBoundaryPass(s);
    }
  }

  lemma CaseBoundaryPassMatch(a: char, b: char, rest: string)
    requires (IsLower(a) || IsDigit(a)) && IsUpper(b)
    ensures CaseBoundaryPass([a, b] + rest) == [a, '_', b] + CaseBoundaryPass(rest)
  {
    assert ([a, b] + rest)[2..] == rest;
  }

  lemma {:induction false} LowerConcat(a: string, b: string)
    ensures Lower(a + b) == Lower(a) + Lower(b)
    decreases |a|
  {
    if a == [] {
      assert a + b == b;
    } else {
      assert (a + b)[1..] == a[1..] + b;
      LowerConcat(a[1..], b);
    }
  }

  lemma LowerNoUpper(s: string)
    requires NoUpper(s)
    ensures Lower(s) == s
  {
  }

  // ---------------------------------------------------------------------------
  // camelCase words
  // ---------------------------------------------------------------------------

  /** A non-empty run of lower-case letters and digits. */
  predicate IsLowerWord(x: string) {
    |x| >= 1 && forall i :: 0 <= i < |x| ==> IsLower(x[i]) || IsDigit(x[i])
  }

  /** A capital followed by at least one lower-case letter. */
  predicate IsCapitalWord(w: string) {
    |w| >= 2 && IsUpper(w[0]) && forall i :: 1 <= i < |w| ==> IsLower(w[i])
  }

  predicate AllCapitalWords(ws: seq<string>) {
    forall k :: 0 <= k < |ws| ==> IsCapitalWord(ws[k])
  }

  function Concat(ws: seq<string>): string {
    if ws == [] then [] else ws[0] + Concat(ws[1..])
  }

  /** The snake_case rendering of the words after the head: each lower-cased and
      preceded by '_'. */
  function SnakeWords(ws: seq<string>): string {
    if ws == [] then [] else "_" + Lower(ws[0]) + SnakeWords(ws[1..])
  }

  /** The words with '_' before every other one, starting with the first iff `under`. */
  function AlternateUnderscores(ws: seq<string>, under: bool): string {
    if ws == [] then []
    else (if under then "_" else "") + ws[0] + AlternateUnderscores(ws[1..], !under)
  }

  /** The words with '_' before each one. */
  function Underscored(ws: seq<string>): string {
    if ws == [] then [] else "_" + ws[0] + Underscored(ws[1..])
  }

  lemma AlternateUnderscoresCons(ws: seq<string>, under: bool)
    requires ws != []
    ensures AlternateUnderscores(ws, under)
      == (if under then "_" + ws[0] else ws[0]) + AlternateUnderscores(ws[1..], !under)
  {
    assert [] + ws[0] == ws[0];
  }

  lemma AllCapitalWordsTail(ws: seq<string>)
    requires ws != [] && AllCapitalWords(ws)
    ensures IsCapitalWord(ws[0]) && AllCapitalWords(ws[1..])
  {
    assert IsCapitalWord(ws[0]);
    forall j | 0 <= j < |ws[1..]| ensures IsCapitalWord(ws[1..][j]) { assert ws[1..][j] == ws[j + 1]; }
  }

  /** Splitting off the first character of a non-empty prefix. */
  lemma SplitFirst(w: string, y: string)
    requires |w| >= 1
    ensures [w[0]] + (w[1..] + y) == w + y
  {
    assert [w[0]] + w[1..] == w;
  }

  lemma ConsAssoc(c: char, a: string, b: string)
    ensures [c] + (a + b) == [c] + a + b
  {
  }

  lemma PairAssoc(c: char, d: char, a: string, b: string)
    ensures [c, d] + a + b == [c] + ([d] + a + b)
  {
    assert [c, d] == [c] + [d];
  }

  /** Splitting off the last character of a non-empty prefix. */
  lemma SplitLast(x: string, y: string)
    requires |x| >= 1
    ensures x[..|x| - 1] + ([x[|x| - 1]] + y) == x + y
  {
    assert x[..|x| - 1] + [x[|x| - 1]] == x;
  }

  /** Concatenated capitalised words start with a capital (or are empty). */
  lemma ConcatStartsUpper(ws: seq<string>)
    requires AllCapitalWords(ws)
    ensures Concat(ws) == [] || IsUpper(Concat(ws)[0])
  {
    if ws != [] { AllCapitalWordsTail(ws); }
  }

  /** A lower-case word never matches the first pattern before its last character. */
  lemma CapitalWordPassCopyLowerWord(x: string, s: string)
    requires IsLowerWord(x)
    ensures CapitalWordPass(x[..|x| - 1] + ([x[|x| - 1]] + s)) == x[..|x| - 1] + CapitalWordPass([x[|x| - 1]] + s)
  {
    var k := |x| - 1;
    var p, t := x[..k], [x[k]] + s;
    forall i | 0 <= i < |p|
      ensures !CapitalWordAt((p + t)[i..])
    {
      assert (p + t)[i..][1] == x[i + 1];
    }
    CapitalWordPassCopy(p, t);
  }

  /** A capitalised word at the very start is not matched by the first pattern
      (no character precedes its capital); the scan goes on after the capital. */
  lemma CapitalWordPassSkipWord(w: string, more: string, moreDone: string)
    requires IsCapitalWord(w)
    requires CapitalWordPass(w[1..] + more) == w[1..] + moreDone
    ensures CapitalWordPass(w + more) == w + moreDone
  {
    var t := w + more;
    assert t[1..] == w[1..] + more;
    assert !CapitalWordAt(t);
    SplitFirst(w, moreDone);
  }

  /** After a lower-case word, a capitalised word is matched with the last
      letter of that word: '_' goes in and the scan resumes after the word. */
  lemma CapitalWordPassMatchStep(x: string, w: string, tail: string, done: string)
    requires IsLowerWord(x) && IsCapitalWord(w)
    requires tail == [] || IsUpper(tail[0])
    requires CapitalWordPass(tail) == done
    ensures CapitalWordPass(x + (w + tail)) == x + ("_" + w + done)
  {
    var k := |x| - 1;
    SplitLast(x, w + tail);
    CapitalWordPassCopyLowerWord(x, w + tail);
    ConsAssoc(x[k], w, tail);
    CapitalWordPassMatch(x[k], w, tail);
    PairAssoc(x[k], '_', w, done);
    SplitLast(x, "_" + w + done);
  }

  /** The first substitution puts '_' before the first capitalised word after
      the head, then before every second one: a match consumes its word, so the
      next word's capital is scanned without the letter that precedes it. */
  lemma {:induction false} CapitalWordPassOnWords(x: string, ws: seq<string>)
    requires IsLowerWord(x) && AllCapitalWords(ws)
    ensures CapitalWordPass(x + Concat(ws)) == x + AlternateUnderscores(ws, true)
    decreases |ws|
  {
    var k := |x| - 1;
    if ws == [] {
      assert x + Concat(ws) == x[..k] + ([x[k]] + []);
      CapitalWordPassCopyLowerWord(x, []);
      assert CapitalWordPass([x[k]] + []) == [x[k]];
      assert x[..k] + [x[k]] == x;
    } else {
      AllCapitalWordsTail(ws);
      var w, rest := ws[0], ws[1..];
      var done := AlternateUnderscores(rest, false);
      ConcatStartsUpper(rest);
      if rest != [] {
        AllCapitalWordsTail(rest);
        var w2, rest2 := rest[0], rest[1..];
        assert IsLowerWord(w2[1..]);
        CapitalWordPassOnWords(w2[1..], rest2);
        CapitalWordPassSkipWord(w2, Concat(rest2), AlternateUnderscores(rest2, true));
        AlternateUnderscoresCons(rest, false);
      }
      assert CapitalWordPass(Concat(rest)) == done;
      CapitalWordPassMatchStep(x, w, Concat(rest), done);
      AlternateUnderscoresCons(ws, true);
    }
  }

  /** A lower-case word never matches the second pattern before its last character. */
  lemma CaseBoundaryPassCopyLowerWord(x: string, s: string)
    requires IsLowerWord(x)
    ensures CaseBoundaryPass(x[..|x| - 1] + ([x[|x| - 1]] + s)) == x[..|x| - 1] + CaseBoundaryPass([x[|x| - 1]] + s)
  {
    var k := |x| - 1;
    var p, t := x[..k], [x[k]] + s;
    forall i | 0 <= i < |p|
      ensures !CaseBoundaryAt((p + t)[i..])
    {
      assert (p + t)[i..][1] == x[i + 1];
    }
    CaseBoundaryPassCopy(p, t);
  }

  /** Where the second pattern cannot start, the scan copies one character. */
  lemma CaseBoundaryPassCons(c: char, t: string)
    requires !(IsLower(c) || IsDigit(c)) || t == [] || !IsUpper(t[0])
    ensures CaseBoundaryPass([c] + t) == [c] + CaseBoundaryPass(t)
  {
    assert ([c] + t)[1..] == t;
  }

  /** What the second pass does after the last letter of a lower-case word
      decides what it does to the whole word followed by the rest. */
  lemma CaseBoundaryAfterLowerWord(x: string, t: string, tDone: string)
    requires IsLowerWord(x)
    requires CaseBoundaryPass([x[|x| - 1]] + t) == [x[|x| - 1]] + tDone
    ensures CaseBoundaryPass(x + t) == x + tDone
  {
    SplitLast(x, t);
    CaseBoundaryPassCopyLowerWord(x, t);
    SplitLast(x, tDone);
  }

  /** The second pass copies '_' and the capital that follows it. */
  lemma CaseBoundaryPassSeparatedWord(w: string, more: string, moreDone: string)
    requires IsCapitalWord(w)
    requires CaseBoundaryPass(w[1..] + more) == w[1..] + moreDone
    ensures CaseBoundaryPass("_" + w + more) == "_" + w + moreDone
  {
    SplitFirst(w, more);
    CaseBoundaryPassCons(w[0], w[1..] + more);
    SplitFirst(w, moreDone);
    CaseBoundaryPassCons('_', w + more);
    ConsAssoc('_', w, more);
    ConsAssoc('_', w, moreDone);
  }

  /** One word already separated by the first pass: the second pass copies it. */
  lemma CaseBoundarySeparatedStep(x: string, w: string, more: string, moreDone: string)
    requires IsLowerWord(x) && IsCapitalWord(w)
    requires CaseBoundaryPass(w[1..] + more) == w[1..] + moreDone
    ensures CaseBoundaryPass(x + ("_" + w + more)) == x + ("_" + w + moreDone)
  {
    CaseBoundaryPassSeparatedWord(w, more, moreDone);
    CaseBoundaryPassCons(x[|x| - 1], "_" + w + more);
    CaseBoundaryAfterLowerWord(x, "_" + w + more, "_" + w + moreDone);
  }

  lemma PairSplit(c: char, w: string, more: string)
    requires |w| >= 1
    ensures [c] + (w + more) == [c, w[0]] + (w[1..] + more)
  {
    assert w == [w[0]] + w[1..];
  }

  lemma TripleJoin(c: char, w: string, done: string)
    requires |w| >= 1
    ensures [c, '_', w[0]] + (w[1..] + done) == [c] + ("_" + w + done)
  {
    assert w == [w[0]] + w[1..];
  }

  /** One word the first pass left joined to the letter before it: the second
      pass separates it. */
  lemma CaseBoundaryJoinedStep(x: string, w: string, more: string, moreDone: string)
    requires IsLowerWord(x) && IsCapitalWord(w)
    requires CaseBoundaryPass(w[1..] + more) == w[1..] + moreDone
    ensures CaseBoundaryPass(x + (w + more)) == x + ("_" + w + moreDone)
  {
    var c := x[|x| - 1];
    PairSplit(c, w, more);
    CaseBoundaryPassMatch(c, w[0], w[1..] + more);
    TripleJoin(c, w, moreDone);
    CaseBoundaryAfterLowerWord(x, w + more, "_" + w + moreDone);
  }

  /** The second substitution completes the job: every capitalised word ends up
      preceded by '_', whichever words the first pass had already separated. */
  lemma {:induction false} CaseBoundaryPassOnWords(x: string, ws: seq<string>, under: bool)
    requires IsLowerWord(x) && AllCapitalWords(ws)
    ensures CaseBoundaryPass(x + AlternateUnderscores(ws, under)) == x + Underscored(ws)
    decreases |ws|
  {
    var k := |x| - 1;
    if ws == [] {
      assert x + AlternateUnderscores(ws, under) == x[..k] + ([x[k]] + []);
      CaseBoundaryPassCopyLowerWord(x, []);
      assert CaseBoundaryPass([x[k]] + []) == [x[k]];
      assert x[..k] + [x[k]] == x;
    } else {
      AllCapitalWordsTail(ws);
      var w, rest := ws[0], ws[1..];
      assert IsLowerWord(w[1..]);
      CaseBoundaryPassOnWords(w[1..], rest, !under);
      AlternateUnderscoresCons(ws, under);
      if under {
        CaseBoundarySeparatedStep(x, w, AlternateUnderscores(rest, !under), Underscored(rest));
      } else {
        CaseBoundaryJoinedStep(x, w, AlternateUnderscores(rest, !under), Underscored(rest));
      }
    }
  }

  lemma {:induction false} LowerOnWords(x: string, ws: seq<string>)
    requires NoUpper(x)
    ensures Lower(x + Underscored(ws)) == x + SnakeWords(ws)
    decreases |ws|
  {
    LowerConcat(x, Underscored(ws));
    LowerNoUpper(x);
    if ws != [] {
      LowerConcat("_" + ws[0], Underscored(ws[1..]));
      LowerConcat("_", ws[0]);
      LowerOnWords([], ws[1..]);
      assert [] + Underscored(ws[1..]) == Underscored(ws[1..]);
      assert [] + SnakeWords(ws[1..]) == SnakeWords(ws[1..]);
      assert Lower("_") == "_";
    }
  }

  /** camelCase to snake_case: a lower-case head followed by capitalised words
      becomes the head followed by each word lower-cased after a '_'. Every
      boundary between a lower-case letter and a capital gains its underscore. */
  lemma CamelWordsToSnake(x: string, ws: seq<string>)
    requires IsLowerWord(x) && AllCapitalWords(ws)
    ensures CamelToSnake(x + Concat(ws)) == x + SnakeWords(ws)
  {
    CapitalWordPassOnWords(x, ws);
    CaseBoundaryPassOnWords(x, ws, true);
    LowerOnWords(x, ws);
  }

  /** An upper-case run followed by a capitalised word is split before the
      capital that starts the word: the run is taken as an acronym. */
  lemma AcronymThenWord(u: string, w: string)
    requires |u| >= 1 && (forall i :: 0 <= i < |u| ==> IsUpper(u[i])) && IsCapitalWord(w)
    ensures CamelToSnake(u + w) == Lower(u) + "_" + Lower(w)
  {
    AcronymCapitalWordPass(u, w);
    AcronymNoCaseBoundary(u, w);
    CaseBoundaryPassCopy(u + "_" + w, []);
    assert u + "_" + w + [] == u + "_" + w;
    LowerConcat(u + "_", w);
    LowerConcat(u, "_");
    assert Lower("_") == "_";
  }

  /** The first substitution matches only at the last capital of the run. */
  lemma AcronymCapitalWordPass(u: string, w: string)
    requires |u| >= 1 && (forall i :: 0 <= i < |u| ==> IsUpper(u[i])) && IsCapitalWord(w)
    ensures CapitalWordPass(u + w) == u + "_" + w
  {
    var k := |u| - 1;
    AcronymNoCapitalWordBefore(u, w, k);
    SplitLastBefore(u, w);
    CapitalWordPassCopy(u[..k], [u[k]] + w + []);
    CapitalWordPassMatch(u[k], w, []);
    JoinLastAfter(u, w);
  }

  lemma AcronymNoCapitalWordBefore(u: string, w: string, k: nat)
    requires k == |u| - 1 && (forall i :: 0 <= i < |u| ==> IsUpper(u[i])) && IsCapitalWord(w)
    ensures forall i :: 0 <= i < k ==> !CapitalWordAt((u[..k] + ([u[k]] + w + []))[i..])
  {
    var s := u[..k] + ([u[k]] + w + []);
    assert s == u + w;
    forall i | 0 <= i < k
      ensures !CapitalWordAt(s[i..])
    {
      if i + 2 < |u| {
        assert s[i + 2] == u[i + 2];
      } else {
        assert s[i + 2] == w[0];
      }
    }
  }

  lemma SplitLastBefore(u: string, w: string)
    requires |u| >= 1
    ensures u + w == u[..|u| - 1] + ([u[|u| - 1]] + w + [])
  {
    assert u == u[..|u| - 1] + [u[|u| - 1]];
  }

  lemma JoinLastAfter(u: string, w: string)
    requires |u| >= 1
    ensures u[..|u| - 1] + ([u[|u| - 1], '_'] + w + []) == u + "_" + w
  {
    assert u == u[..|u| - 1] + [u[|u| - 1]];
  }

  /** After the first substitution, the second finds nothing to split. */
  lemma AcronymNoCaseBoundary(u: string, w: string)
    requires |u| >= 1 && (forall i :: 0 <= i < |u| ==> IsUpper(u[i])) && IsCapitalWord(w)
    ensures forall i :: 0 <= i < |u + "_" + w| ==> !CaseBoundaryAt((u + "_" + w + [])[i..])
  {
    var p := u + "_" + w;
    assert p + [] == p;
    forall i | 0 <= i < |p|
      ensures !CaseBoundaryAt(p[i..])
    {
      if i < |u| {
        assert p[i] == u[i];
      } else if i == |u| {
        assert p[i] == '_';
      } else if i + 1 < |p| {
        assert p[i + 1] == w[i - |u|];
      }
    }
  }

  // ---------------------------------------------------------------------------
  // Every lower-case-or-digit / capital boundary gains '_'
  // ---------------------------------------------------------------------------

  /** Inserting underscores into two strings inserts them into their concatenation. */
  lemma {:induction false} InsertsUnderscoresConcat(r1: string, s1: string, r2: string, s2: string)
    requires InsertsUnderscores(r1, s1) && InsertsUnderscores(r2, s2)
    ensures InsertsUnderscores(r1 + r2, s1 + s2)
    decreases |r1|
  {
    if r1 == [] {
      assert r1 + r2 == r2 && s1 + s2 == s2;
    } else {
      assert (r1 + r2)[1..] == r1[1..] + r2;
      if s1 != [] && r1[0] == s1[0] && InsertsUnderscores(r1[1..], s1[1..]) {
        InsertsUnderscoresConcat(r1[1..], s1[1..], r2, s2);
        assert (s1 + s2)[1..] == s1[1..] + s2;
      } else {
        InsertsUnderscoresConcat(r1[1..], s1, r2, s2);
      }
    }
  }

  /** Position m of the first pass's output `p` holds the boundary at i of its
      input `s`: the lower-case letter or digit, then the capital, either right
      after it or after an inserted '_'; and up to m the output only inserted
      underscores. */
  ghost predicate BoundaryKept(p: string, m: nat, s: string, i: nat) {
    && i + 1 < |s| && m + 1 < |p| && p[m] == s[i]
    && (p[m + 1] == s[i + 1] || (p[m + 1] == '_' && m + 2 < |p| && p[m + 2] == s[i + 1]))
    && InsertsUnderscores(p[..m + 1], s[..i + 1])
  }

  /** A kept boundary stays kept behind a prefix that only inserts underscores. */
  lemma BoundaryKeptShift(pre: string, spre: string, p: string, m: nat, s: string, i: nat,
                          whole: string, m': nat, swhole: string, i': nat)
    requires InsertsUnderscores(pre, spre) && BoundaryKept(p, m, s, i)
    requires whole == pre + p && m' == |pre| + m && swhole == spre + s && i' == |spre| + i
    ensures BoundaryKept(whole, m', swhole, i')
  {
    ShiftIndices(pre, p, m, whole, m');
    ShiftIndices(spre, s, i, swhole, i');
    ShiftPrefix(pre, spre, p[..m + 1], s[..i + 1], whole, m' + 1, swhole, i' + 1);
  }

  /** Positions behind a prefix move by its length. */
  lemma ShiftIndices(pre: string, p: string, m: nat, whole: string, m': nat)
    requires m + 1 < |p| && whole == pre + p && m' == |pre| + m
    ensures m' + 1 < |whole| && whole[m'] == p[m] && whole[m' + 1] == p[m + 1]
    ensures m + 2 < |p| ==> m' + 2 < |whole| && whole[m' + 2] == p[m + 2]
  {
  }

  /** Prefixes behind a prefix that only inserts underscores keep inserting only underscores. */
  lemma ShiftPrefix(pre: string, spre: string, r: string, t: string,
                    whole: string, n: nat, swhole: string, k: nat)
    requires InsertsUnderscores(pre, spre) && InsertsUnderscores(r, t)
    requires |pre| + |r| == n <= |whole| && whole[..n] == pre + r
    requires |spre| + |t| == k <= |swhole| && swhole[..k] == spre + t
    ensures InsertsUnderscores(whole[..n], swhole[..k])
  {
    InsertsUnderscoresConcat(pre, spre, r, t);
  }

  /** Cutting a concatenation inside its second part. */
  lemma PrefixPastFirst(a: string, b: string, n: nat)
    requires |a| <= n <= |a| + |b|
    ensures (a + b)[..n] == a + b[..n - |a|]
  {
  }

  /** The output of the first pass starts with the first character of its input. */
  lemma CapitalWordPassHead(t: string)
    requires t != []
    ensures CapitalWordPass(t) != [] && CapitalWordPass(t)[0] == t[0]
  {
  }

  /** The emitted part of a first-pass match only inserts '_'. */
  lemma MatchOutputInserts(s: string, j: nat)
    requires 1 <= j <= |s|
    ensures InsertsUnderscores([s[0], '_'] + s[1..j], s[..j])
  {
    InsertsUnderscoresRefl([]);
    InsertsUnderscoresAfterMatch(s[0], s[1..j], [], []);
    assert [s[0], '_'] + s[1..j] + [] == [s[0], '_'] + s[1..j];
    assert [s[0]] + s[1..j] + [] == s[..j];
  }

  /** A boundary inside a first-pass match sits at its start: the matched
      character, then '_', then the capital. */
  lemma BoundaryAtMatchStart(s: string)
    requires CapitalWordAt(s) && (IsLower(s[0]) || IsDigit(s[0]))
    ensures BoundaryKept(CapitalWordPass(s), 0, s, 0)
  {
    var j := 2 + LowerRunLength(s[2..]);
    assert CapitalWordPass(s) == [s[0], '_'] + s[1..j] + CapitalWordPass(s[j..]);
    InsertsUnderscoresRefl([s[0]]);
    assert CapitalWordPass(s)[..1] == [s[0]] == s[..1];
  }

  /** A boundary at the end of a first-pass match: the last letter of the
      word, then the capital where the scan resumes. */
  lemma BoundaryAtMatchEnd(s: string, i: nat)
    requires CapitalWordAt(s) && i + 1 < |s| && IsUpper(s[i + 1])
    requires i + 1 == 2 + LowerRunLength(s[2..])
    ensures BoundaryKept(CapitalWordPass(s), i + 1, s, i)
  {
    CapitalWordPassAtMatch(s, i + 1);
    CapitalWordPassHead(s[i + 1..]);
    BoundaryAtWordEnd(s, i + 1, CapitalWordPass(s), CapitalWordPass(s[i + 1..]));
  }

  /** The same, on the emitted match `[s[0], '_'] + s[1..j]` and the rest `q`. */
  lemma BoundaryAtWordEnd(s: string, j: nat, p: string, q: string)
    requires 2 <= j < |s| && p == ([s[0], '_'] + s[1..j]) + q
    requires q != [] && q[0] == s[j]
    ensures BoundaryKept(p, j, s, j - 1)
  {
    var pre := [s[0], '_'] + s[1..j];
    MatchOutputInserts(s, j);
    assert p[j] == s[j - 1] && p[j + 1] == s[j];
    PrefixPastFirst(pre, q, j + 1);
    assert q[..0] == [];
  }

  /** Where the first pattern does not match, a boundary at the first
      character is copied as it is. */
  lemma BoundaryAtCopy(s: string)
    requires !CapitalWordAt(s) && |s| >= 2 && IsUpper(s[1])
    ensures BoundaryKept(CapitalWordPass(s), 0, s, 0)
  {
    assert CapitalWordPass(s) == [s[0]] + CapitalWordPass(s[1..]);
    CapitalWordPassHead(s[1..]);
    InsertsUnderscoresRefl([s[0]]);
    assert CapitalWordPass(s)[..1] == [s[0]] == s[..1];
  }

  /** Inside a matched word every letter after the capital is lower-case, so
      a capital that follows a letter of the match comes right after it. */
  lemma BoundaryNotInsideWord(s: string, i: nat)
    requires CapitalWordAt(s) && i + 1 < |s| && IsUpper(s[i + 1])
    ensures i == 0 || i + 1 >= 2 + LowerRunLength(s[2..])
  {
  }

  /** The first pass unfolds at a match into the matched text with '_' inserted. */
  lemma CapitalWordPassAtMatch(s: string, j: nat)
    requires CapitalWordAt(s) && j == 2 + LowerRunLength(s[2..])
    ensures CapitalWordPass(s) == ([s[0], '_'] + s[1..j]) + CapitalWordPass(s[j..])
  {
  }

  /** Where the first pattern does not match, the first pass copies one character. */
  lemma CapitalWordPassCopyOne(s: string)
    requires !CapitalWordAt(s) && s != []
    ensures CapitalWordPass(s) == [s[0]] + CapitalWordPass(s[1..])
  {
  }

  /** A boundary after a first-pass match is kept as the rest of the scan keeps it. */
  lemma BoundaryAfterMatch(s: string, j: nat, i: nat, m': nat, m: nat, p: string, q: string)
    requires 1 <= j <= i && i + 1 < |s| && m == j + 1 + m'
    requires p == ([s[0], '_'] + s[1..j]) + q
    requires BoundaryKept(q, m', s[j..], i - j)
    ensures BoundaryKept(p, m, s, i)
  {
    MatchOutputInserts(s, j);
    BoundaryKeptShift([s[0], '_'] + s[1..j], s[..j], q, m', s[j..], i - j, p, m, s, i);
  }

  /** A boundary after a copied character is kept as the rest of the scan keeps it. */
  lemma BoundaryAfterCopy(s: string, i: nat, m': nat, m: nat, p: string, q: string)
    requires 1 <= i && i + 1 < |s| && m == 1 + m'
    requires p == [s[0]] + q
    requires BoundaryKept(q, m', s[1..], i - 1)
    ensures BoundaryKept(p, m, s, i)
  {
    InsertsUnderscoresRefl([s[0]]);
    BoundaryKeptShift([s[0]], [s[0]], q, m', s[1..], i - 1, p, m, s, i);
  }

  /** The first substitution keeps every lower-case-or-digit / capital
      boundary: it either inserts '_' inside it or leaves the pair adjacent. */
  lemma {:induction false} FirstPassBoundary(s: string, i: nat) returns (m: nat)
    requires i + 1 < |s| && (IsLower(s[i]) || IsDigit(s[i])) && IsUpper(s[i + 1])
    ensures BoundaryKept(CapitalWordPass(s), m, s, i)
    decreases |s|, 2
  {
    if CapitalWordAt(s) {
      m := FirstPassBoundaryAtMatch(s, i);
    } else {
      m := FirstPassBoundaryAtCopy(s, i);
    }
  }

  /** The boundary case of FirstPassBoundary where the scan matches at the start. */
  lemma {:induction false} FirstPassBoundaryAtMatch(s: string, i: nat) returns (m: nat)
    requires i + 1 < |s| && (IsLower(s[i]) || IsDigit(s[i])) && IsUpper(s[i + 1])
    requires CapitalWordAt(s)
    ensures BoundaryKept(CapitalWordPass(s), m, s, i)
    decreases |s|, 1
  {
    BoundaryNotInsideWord(s, i);
    if i == 0 {
      BoundaryAtMatchStart(s);
      m := 0;
    } else if i + 1 == 2 + LowerRunLength(s[2..]) {
      BoundaryAtMatchEnd(s, i);
      m := i + 1;
    } else {
      m := FirstPassBoundaryPastMatch(s, i);
    }
  }

  /** The boundary case of FirstPassBoundary that lies after the first match. */
  lemma {:induction false} FirstPassBoundaryPastMatch(s: string, i: nat) returns (m: nat)
    requires i + 1 < |s| && (IsLower(s[i]) || IsDigit(s[i])) && IsUpper(s[i + 1])
    requires CapitalWordAt(s) && 2 + LowerRunLength(s[2..]) <= i
    ensures BoundaryKept(CapitalWordPass(s), m, s, i)
    decreases |s|, 0
  {
    var j := 2 + LowerRunLength(s[2..]);
    var m' := FirstPassBoundary(s[j..], i - j);
    m := j + 1 + m';
    BoundaryPastMatch(s, j, i, m', m);
  }

  /** A boundary after a first-pass match is kept as the rest of the scan keeps it. */
  lemma BoundaryPastMatch(s: string, j: nat, i: nat, m': nat, m: nat)
    requires CapitalWordAt(s) && j == 2 + LowerRunLength(s[2..]) && j <= i && i + 1 < |s|
    requires BoundaryKept(CapitalWordPass(s[j..]), m', s[j..], i - j) && m == j + 1 + m'
    ensures BoundaryKept(CapitalWordPass(s), m, s, i)
  {
    CapitalWordPassAtMatch(s, j);
    BoundaryAfterMatch(s, j, i, m', m, CapitalWordPass(s), CapitalWordPass(s[j..]));
  }

  /** The boundary case of FirstPassBoundary where the scan copies one character. */
  lemma {:induction false} FirstPassBoundaryAtCopy(s: string, i: nat) returns (m: nat)
    requires i + 1 < |s| && (IsLower(s[i]) || IsDigit(s[i])) && IsUpper(s[i + 1])
    requires !CapitalWordAt(s)
    ensures BoundaryKept(CapitalWordPass(s), m, s, i)
    decreases |s|, 1
  {
    if i == 0 {
      BoundaryAtCopy(s);
      m := 0;
    } else {
      var m' := FirstPassBoundary(s[1..], i - 1);
      m := 1 + m';
      CapitalWordPassCopyOne(s);
      BoundaryAfterCopy(s, i, m', m, CapitalWordPass(s), CapitalWordPass(s[1..]));
    }
  }

  /** The second scan reaches a character that is not a capital on its own
      (no match can swallow it), so it runs on the two sides independently. */
  lemma {:induction false} CaseBoundarySplit(a: string, b: string)
    requires b == [] || !IsUpper(b[0])
    ensures CaseBoundaryPass(a + b) == CaseBoundaryPass(a) + CaseBoundaryPass(b)
    decreases |a|
  {
    if a == [] {
      assert a + b == b;
    } else if CaseBoundaryAt(a + b) {
      assert |a| >= 2 && CaseBoundaryAt(a);
      assert (a + b)[2..] == a[2..] + b;
      CaseBoundarySplit(a[2..], b);
      ConsAssoc(a[0], ['_', a[1]] + CaseBoundaryPass(a[2..]), CaseBoundaryPass(b));
    } else {
      assert !CaseBoundaryAt(a);
      assert (a + b)[1..] == a[1..] + b;
      CaseBoundarySplit(a[1..], b);
    }
  }

  /** The second pass at a kept boundary: the lower-case letter or digit, '_',
      then the capital, whether or not the first pass put '_' there already. */
  lemma CaseBoundaryPassFromBoundary(t: string)
    requires |t| >= 2 && (IsLower(t[0]) || IsDigit(t[0]))
    requires IsUpper(t[1]) || (t[1] == '_' && |t| >= 3 && IsUpper(t[2]))
    ensures var q := CaseBoundaryPass(t);
      && |q| >= 3 && q[0] == t[0] && q[1] == '_'
      && q[2] == (if t[1] == '_' then t[2] else t[1])
  {
    if t[1] == '_' {
      assert t == [t[0]] + (['_'] + ([t[2]] + t[3..]));
      CaseBoundaryPassCons(t[2], t[3..]);
      CaseBoundaryPassCons('_', [t[2]] + t[3..]);
      CaseBoundaryPassCons(t[0], ['_'] + ([t[2]] + t[3..]));
    } else {
      assert t == [t[0], t[1]] + t[2..];
      CaseBoundaryPassMatch(t[0], t[1], t[2..]);
    }
  }

  /** What the second pass makes of a kept boundary: the lower-case letter or
      digit, '_', then the capital, and before it only underscores inserted. */
  lemma CaseBoundaryPassAtBoundary(p: string, m: nat) returns (k: nat)
    requires m + 1 < |p| && (IsLower(p[m]) || IsDigit(p[m]))
    requires IsUpper(p[m + 1]) || (p[m + 1] == '_' && m + 2 < |p| && IsUpper(p[m + 2]))
    ensures var q := CaseBoundaryPass(p);
      && k + 2 < |q| && q[k] == p[m] && q[k + 1] == '_'
      && q[k + 2] == (if p[m + 1] == '_' then p[m + 2] else p[m + 1])
      && InsertsUnderscores(q[..k + 1], p[..m + 1])
  {
    var before, after := CaseBoundaryPass(p[..m]), CaseBoundaryPass(p[m..]);
    assert p[..m] + p[m..] == p;
    CaseBoundarySplit(p[..m], p[m..]);
    CaseBoundaryPassFromBoundary(p[m..]);
    k := |before|;
    PrefixPastFirst(before, after, k + 1);
    assert after[..1] == [p[m]];
    CaseBoundaryPassInserts(p[..m]);
    InsertsUnderscoresRefl([p[m]]);
    InsertsUnderscoresConcat(before, p[..m], [p[m]], [p[m]]);
    assert p[..m] + [p[m]] == p[..m + 1];
  }

  /** Lower-casing commutes with taking a prefix. */
  lemma LowerPrefix(q: string, n: nat)
    requires n <= |q|
    ensures Lower(q)[..n] == Lower(q[..n])
  {
  }

  /** camel_to_snake puts '_' at every place where a lower-case letter or digit
      is followed by a capital, and before that place it only lower-cases and
      inserts underscores: `k` is where the place lands in the result. */
  lemma CamelToSnakeSeparatesBoundary(name: string, i: nat) returns (k: nat)
    requires i + 1 < |name| && (IsLower(name[i]) || IsDigit(name[i])) && IsUpper(name[i + 1])
    ensures var r := CamelToSnake(name);
      && k + 2 < |r| && r[k] == LowerChar(name[i]) && r[k + 1] == '_'
      && r[k + 2] == LowerChar(name[i + 1])
      && InsertsUnderscores(r[..k + 1], Lower(name[..i + 1]))
  {
    var p := CapitalWordPass(name);
    var m := FirstPassBoundary(name, i);
    k := CaseBoundaryPassAtBoundary(p, m);
    var q := CaseBoundaryPass(p);
    InsertsUnderscoresTrans(q[..k + 1], p[..m + 1], name[..i + 1]);
    InsertsUnderscoresLower(q[..k + 1], name[..i + 1]);
    LowerPrefix(q, k + 1);
    assert CamelToSnake(name) == Lower(q);
  }

  // ---------------------------------------------------------------------------
  // The column names the fetcher relies on, and the acronym case
  // ---------------------------------------------------------------------------

  lemma ConcatTwo(a: string, b: string)
    ensures Concat([a, b]) == a + b
  {
    assert [a, b][1..] == [b];
    assert [b][1..] == [];
    assert Concat([b]) == b + Concat([]);
    assert b + [] == b;
  }

  lemma SnakeWordsTwo(a: string, b: string)
    ensures SnakeWords([a, b]) == "_" + Lower(a) + "_" + Lower(b)
  {
    assert [a, b][1..] == [b];
    assert [b][1..] == [];
    assert SnakeWords([b]) == "_" + Lower(b) + SnakeWords([]);
    assert "_" + Lower(b) + [] == "_" + Lower(b);
  }

  lemma LowerCapitalWord(w: string)
    requires IsCapitalWord(w)
    ensures Lower(w) == [LowerChar(w[0])] + w[1..]
  {
  }

  // Facts about the literal words, each proved on its own: kept apart from the
  // lemmas that combine them, so the solver evaluates no literal twice.

  lemma CapitalLiterals()
    ensures IsCapitalWord("Measurement") && IsCapitalWord("Date") && IsCapitalWord("Variable")
    ensures IsCapitalWord("Value") && IsCapitalWord("Changed") && IsCapitalWord("Response")
  {
  }

  lemma TailLiterals()
    ensures "Measurement"[1..] == "easurement" && "Date"[1..] == "ate" && "Variable"[1..] == "ariable"
    ensures "Value"[1..] == "alue" && "Changed"[1..] == "hanged" && "Response"[1..] == "esponse"
  {
  }

  lemma LowerWordLiterals()
    ensures IsLowerWord("first") && IsLowerWord("last")
  {
  }

  lemma AcronymLiterals()
    ensures |"HTTP"| >= 1 && (forall i :: 0 <= i < |"HTTP"| ==> IsUpper("HTTP"[i]))
    ensures Lower("HTTP") == "http"
  {
  }

  lemma MeasurementWord()
    ensures IsCapitalWord("Measurement") && Lower("Measurement") == ['m'] + "easurement"
  {
    CapitalLiterals();
    TailLiterals();
    LowerCapitalWord("Measurement");
  }

  lemma DateWord()
    ensures IsCapitalWord("Date") && Lower("Date") == ['d'] + "ate"
  {
    CapitalLiterals();
    TailLiterals();
    LowerCapitalWord("Date");
  }

  lemma VariableWord()
    ensures IsCapitalWord("Variable") && Lower("Variable") == ['v'] + "ariable"
  {
    CapitalLiterals();
    TailLiterals();
    LowerCapitalWord("Variable");
  }

  lemma ValueWord()
    ensures IsCapitalWord("Value") && Lower("Value") == ['v'] + "alue"
  {
    CapitalLiterals();
    TailLiterals();
    LowerCapitalWord("Value");
  }

  lemma ChangedWord()
    ensures IsCapitalWord("Changed") && Lower("Changed") == ['c'] + "hanged"
  {
    CapitalLiterals();
    TailLiterals();
    LowerCapitalWord("Changed");
  }

  lemma ResponseWord()
    ensures IsCapitalWord("Response") && Lower("Response") == ['r'] + "esponse"
  {
    CapitalLiterals();
    TailLiterals();
    LowerCapitalWord("Response");
  }

  lemma AllCapitalWordsTwo(a: string, b: string)
    requires IsCapitalWord(a) && IsCapitalWord(b)
    ensures AllCapitalWords([a, b])
  {
  }

  lemma AllCapitalWordsFour(a: string, b: string, c: string, d: string)
    requires IsCapitalWord(a) && IsCapitalWord(b) && IsCapitalWord(c) && IsCapitalWord(d)
    ensures AllCapitalWords([a, b, c, d])
  {
  }

  lemma FirstMeasurementDateWords()
    ensures IsLowerWord("first") && AllCapitalWords(["Measurement", "Date"])
    ensures Lower("Measurement") == ['m'] + "easurement" && Lower("Date") == ['d'] + "ate"
  {
    LowerWordLiterals();
    MeasurementWord();
    DateWord();
    AllCapitalWordsTwo("Measurement", "Date");
  }

  lemma FirstMeasurementDate()
    ensures CamelToSnake("firstMeasurementDate") == "first_measurement_date"
  {
    FirstMeasurementDateWords();
    CamelWordsToSnake("first", ["Measurement", "Date"]);
    ConcatTwo("Measurement", "Date");
    SnakeWordsTwo("Measurement", "Date");
    FirstMeasurementDateSpelling();
  }

  lemma FirstMeasurementDateSpelling()
    ensures "first" + ("Measurement" + "Date") == "firstMeasurementDate"
    ensures "first" + ("_" + (['m'] + "easurement") + "_" + (['d'] + "ate")) == "first_measurement_date"
  {
  }

  lemma ConcatFour(a: string, b: string, c: string, d: string)
    ensures Concat([a, b, c, d]) == a + (b + (c + d))
  {
    assert [a, b, c, d][1..] == [b, c, d];
    assert [b, c, d][1..] == [c, d];
    ConcatTwo(c, d);
  }

  lemma SnakeWordsFour(a: string, b: string, c: string, d: string)
    ensures SnakeWords([a, b, c, d]) == "_" + Lower(a) + ("_" + Lower(b) + ("_" + Lower(c) + "_" + Lower(d)))
  {
    assert [a, b, c, d][1..] == [b, c, d];
    assert [b, c, d][1..] == [c, d];
    SnakeWordsTwo(c, d);
  }

  lemma LastVariableValueChangedDateWords()
    ensures IsLowerWord("last") && AllCapitalWords(["Variable", "Value", "Changed", "Date"])
    ensures Lower("Variable") == ['v'] + "ariable" && Lower("Value") == ['v'] + "alue"
    ensures Lower("Changed") == ['c'] + "hanged" && Lower("Date") == ['d'] + "ate"
  {
    LowerWordLiterals();
    VariableWord();
    ValueWord();
    ChangedWord();
    DateWord();
    AllCapitalWordsFour("Variable", "Value", "Changed", "Date");
  }

  lemma LastVariableValueChangedDate()
    ensures CamelToSnake("lastVariableValueChangedDate") == "last_variable_value_changed_date"
  {
    LastVariableValueChangedDateWords();
    CamelWordsToSnake("last", ["Variable", "Value", "Changed", "Date"]);
    ConcatFour("Variable", "Value", "Changed", "Date");
    SnakeWordsFour("Variable", "Value", "Changed", "Date");
    LastVariableValueChangedDateSpelling();
  }

  lemma LastVariableValueChangedDateSpelling()
    ensures "last" + ("Variable" + ("Value" + ("Changed" + "Date"))) == "lastVariableValueChangedDate"
    ensures "last" + ("_" + (['v'] + "ariable") + ("_" + (['v'] + "alue") + ("_" + (['c'] + "hanged") + "_" + (['d'] + "ate"))))
      == "last_variable_value_changed_date"
  {
  }

  /** The keys the slice planner reads (database.py:115-116) are the
      snake_case forms of the remote camelCase names. */
  lemma StatusKeys()
    ensures CamelToSnake("firstMeasurementDate") == "first_measurement_date"
    ensures CamelToSnake("lastVariableValueChangedDate") == "last_variable_value_changed_date"
  {
    FirstMeasurementDate();
    LastVariableValueChangedDate();
  }

  lemma AcronymSpelling()
    ensures "HTTP" + "Response" == "HTTPResponse"
    ensures "http" + "_" + (['r'] + "esponse") == "http_response"
  {
  }

  /** "HTTPResponse" becomes "http_response". */
  lemma AcronymSplit()
    ensures CamelToSnake("HTTPResponse") == "http_response"
  {
    AcronymLiterals();
    ResponseWord();
    AcronymThenWord("HTTP", "Response");
    AcronymSpelling();
  }
}
