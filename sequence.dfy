/** The piece-sequence mini-language: a spec such as "I, [SZ]p2, [^O]!, *" is parsed into
    tokens, from which a random piece sequence can be generated, or against which a given
    sequence can be matched.

    Grammar, token by token (spaces and commas between tokens are skipped):
      letter          one literal piece, case-insensitive (I J L O S T Z)
      [letters]       a set of pieces (spaces and commas inside are skipped, repeats kept)
      [^letters]      the complement of a set with respect to the seven kinds
      *               all seven kinds
    and a set may be followed by `pN` (draw N distinct pieces, 1 <= N <= letters written),
    `!` (draw as many as letters written) or nothing (draw one). */
module PieceSequence {
  import opened Tetromino
  import opened RandomChoice

  /** A token: a literal letter (stored upper-case), or a set with its draw count. The source
      keeps the set as canonical pieces built by `from_char`, which compare by kind only; the
      model keeps their kinds. */
  datatype Expr = Single(t: char) | Set(exclude: bool, count: nat, members: seq<MinoType>)

  /** The source accumulates the draw count in an unsigned 32-bit integer. */
  const U32: nat := 0x1_0000_0000

  predicate IsDigit(c: char) { '0' <= c <= '9' }
  predicate IsAlpha(c: char) { 'a' <= c <= 'z' || 'A' <= c <= 'Z' }
  predicate IsSeparator(c: char) { c == ' ' || c == ',' }

  /** Every character a valid spec can contain. */
  predicate Allowed(c: char) {
    IsSeparator(c) || c == '[' || c == ']' || c == '^' || c == '*' || c == '!' || IsAlpha(c) || IsDigit(c)
  }

  /** Set members are real kinds. */
  ghost predicate RealKinds(members: seq<MinoType>) {
    forall k :: k in members ==> k != INVALID
  }

  /** What the parser guarantees about every token it produces. */
  ghost predicate WellFormedExpr(e: Expr) {
    match e
    case Single(t) => t in "IJLOSTZ"
    case Set(_, count, members) => |members| > 0 && RealKinds(members) && 1 <= count <= |members|
  }

  ghost predicate WellFormedExprs(es: seq<Expr>) {
    forall e :: e in es ==> WellFormedExpr(e)
  }

  /** A letter naming a piece kind is alphabetic. */
  lemma PieceLetterIsAlpha(c: char)
    requires LetterKind(c).Some?
    ensures IsAlpha(c)
  {
    assert ToUpper(c) in "IJLOSTZ";
  }

  // ---------------------------------------------------------------- parsing

  function Digit(c: char): nat
    requires IsDigit(c)
  {
    c as int - '0' as int
  }

  function Pow10(k: nat): nat {
    if k == 0 then 1 else 10 * Pow10(k - 1)
  }

  /** The decimal value of a digit string, without any width limit. */
  function Decimal(ds: string): nat
    requires forall j :: 0 <= j < |ds| ==> IsDigit(ds[j])
  {
    if ds == [] then 0 else Digit(ds[0]) * Pow10(|ds| - 1) + Decimal(ds[1..])
  }

  /** The digits of a `pN` suffix from position k on, accumulated into `n` in 32-bit
      arithmetic; returns the count and the position after the last digit. */
  function Digits(s: string, k: nat, n: nat): (r: (nat, nat))
    requires k <= |s| && n < U32
    ensures k <= r.1 <= |s| && r.0 < U32
    ensures r.1 == |s| || !IsDigit(s[r.1])
    ensures forall j :: k <= j < r.1 ==> IsDigit(s[j])
    decreases |s| - k
  {
    if k < |s| && IsDigit(s[k]) then Digits(s, k + 1, (n * 10 + Digit(s[k])) % U32) else (n, k)
  }

  /** The kinds named by the piece letters of a text, in order. Every other character
      (separators, brackets, `^`, `*`, `p`, `!`, digits) names none. */
  function WrittenKinds(t: string): (r: seq<MinoType>)
    ensures RealKinds(r)
  {
    if t == [] then []
    else (match LetterKind(t[0]) case None => [] case Some(k) => [k]) + WrittenKinds(t[1..])
  }

  lemma {:induction false} WrittenKindsAppend(a: string, b: string)
    ensures WrittenKinds(a + b) == WrittenKinds(a) + WrittenKinds(b)
  {
    if a != [] {
      assert (a + b)[1..] == a[1..] + b;
      WrittenKindsAppend(a[1..], b);
    } else {
      assert a + b == b;
    }
  }

  lemma {:induction false} WrittenKindsOfNone(t: string)
    requires forall j :: 0 <= j < |t| ==> LetterKind(t[j]).None?
    ensures WrittenKinds(t) == []
  {
    if t != [] {
      WrittenKindsOfNone(t[1..]);
    }
  }

  /** The letters of a bracketed set from position k up to the closing `]`: the kinds
      written, in order, after those already read; none when the text ends first or a
      character is neither a separator nor a piece letter. */
  function Letters(s: string, k: nat, acc: seq<MinoType>): (r: Option<(seq<MinoType>, nat)>)
    requires k <= |s|
    ensures r.Some? ==> k <= r.value.1 < |s| && s[r.value.1] == ']'
    ensures r.Some? ==> r.value.0 == acc + WrittenKinds(s[k..r.value.1])
    ensures r.Some? && RealKinds(acc) ==> RealKinds(r.value.0)
    ensures r.Some? && acc != [] ==> r.value.0 != []
    decreases |s| - k
  {
    if k == |s| then None
    else if s[k] == ']' then Some((acc, k))
    else if IsSeparator(s[k]) then
      var r := Letters(s, k + 1, acc);
      if r.Some? then SeparatorStep(s, k, r.value.1); r else r
    else match LetterKind(s[k])
      case None => None
      case Some(t) =>
        var r := Letters(s, k + 1, acc + [t]);
        if r.Some? then LetterStep(s, k, r.value.1, acc, t); r else r
  }

  /** A separator names no kind. */
  lemma SeparatorStep(s: string, k: nat, e: nat)
    requires k < e <= |s| && IsSeparator(s[k])
    ensures WrittenKinds(s[k..e]) == WrittenKinds(s[k + 1..e])
  {
    assert s[k..e][1..] == s[k + 1..e];
  }

  /** A piece letter names its kind, after those already read. */
  lemma LetterStep(s: string, k: nat, e: nat, acc: seq<MinoType>, t: MinoType)
    requires k < e <= |s| && LetterKind(s[k]) == Some(t)
    ensures (acc + [t]) + WrittenKinds(s[k + 1..e]) == acc + WrittenKinds(s[k..e])
    ensures RealKinds(acc) ==> RealKinds(acc + [t])
  {
    assert s[k..e][1..] == s[k + 1..e];
    assert WrittenKinds(s[k..e]) == [t] + WrittenKinds(s[k + 1..e]);
  }

  /** A bracket body that reaches a `]` through separators and piece letters only is read up
      to that `]`. With the contract of `Letters`, a body is read exactly when it is closed
      this way. */
  lemma {:induction false} LettersCloses(s: string, k: nat, acc: seq<MinoType>, j: nat)
    requires k <= j < |s| && s[j] == ']'
    requires forall i :: k <= i < j ==> IsSeparator(s[i]) || LetterKind(s[i]).Some?
    ensures Letters(s, k, acc) == Some((acc + WrittenKinds(s[k..j]), j))
    decreases j - k
  {
    if k == j {
      assert s[k..j] == [];
    } else {
      assert s[k] != ']';
      match LetterKind(s[k])
      case None =>
        LettersCloses(s, k + 1, acc, j);
      case Some(t) =>
        LettersCloses(s, k + 1, acc + [t], j);
    }
  }

  /** The count suffix of a set token starting at position k. `!` draws as many pieces as
      letters were written; no suffix draws one; `pN` draws N, the decimal value of the
      digits that follow wrapped to 32 bits, and fails when no digit follows or N is not
      between 1 and the number of letters written. */
  function Suffix(s: string, k: nat, exclude: bool, members: seq<MinoType>): (r: Option<(Expr, nat)>)
    requires k <= |s| && |members| > 0
    ensures r.Some? ==> k <= r.value.1 <= |s| && r.value.0.Set?
    ensures r.Some? ==> r.value.0.exclude == exclude && r.value.0.members == members
    ensures r.Some? ==> 1 <= r.value.0.count <= |members|
    ensures k < |s| && s[k] == '!' ==> r == Some((Set(exclude, |members|, members), k + 1))
    ensures k == |s| || (s[k] != 'p' && s[k] != '!') ==> r == Some((Set(exclude, 1, members), k))
    ensures k < |s| && s[k] == 'p' ==>
      var e := Digits(s, k + 1, 0).1;
      var n := Decimal(s[k + 1..e]) % U32;
      r == if e == k + 1 || n == 0 || n > |members| then None else Some((Set(exclude, n, members), e))
  {
    if k < |s| && s[k] == 'p' then
      if k + 1 == |s| || !IsDigit(s[k + 1]) then None
      else
        var (n, j) := Digits(s, k + 1, 0);
        DigitsValue(s, k + 1, 0);
        if n == 0 || n > |members| then None else Some((Set(exclude, n, members), j))
    else if k < |s| && s[k] == '!' then Some((Set(exclude, |members|, members), k + 1))
    else Some((Set(exclude, 1, members), k))
  }

  /** A bracketed set token whose letters start at position `start`: its members are the
      kinds written up to the `]`, in order, and there must be at least one. */
  function ParseBracket(s: string, start: nat, exclude: bool): (r: Option<(Expr, nat)>)
    requires start <= |s|
    ensures r.Some? ==> start < r.value.1 <= |s| && WellFormedExpr(r.value.0) && r.value.0.Set?
    ensures r.Some? ==> r.value.0.exclude == exclude && r.value.0.members == WrittenKinds(s[start..r.value.1])
  {
    match Letters(s, start, [])
    case None => None
    case Some((members, j)) =>
      if members == [] then None
      else
        var r := Suffix(s, j + 1, exclude, members);
        SuffixChars(s, j + 1, exclude, members);
        if r.Some? then SuffixNamesNoKind(s, start, j, r.value.1); r else r
  }

  /** The `]` and the count suffix after a set's letters name no further kind. */
  lemma SuffixNamesNoKind(s: string, start: nat, j: nat, e: nat)
    requires start <= j < e <= |s| && s[j] == ']'
    requires forall i :: j < i < e ==> s[i] == 'p' || s[i] == '!' || IsDigit(s[i])
    ensures WrittenKinds(s[start..e]) == WrittenKinds(s[start..j])
  {
    assert s[start..e] == s[start..j] + s[j..e];
    WrittenKindsAppend(s[start..j], s[j..e]);
    WrittenKindsOfNone(s[j..e]);
  }

  lemma BracketUnfolds(s: string, start: nat, exclude: bool, members: seq<MinoType>, j: nat)
    requires start <= |s| && Letters(s, start, []).Some? && members != []
    requires Letters(s, start, []).value.0 == members && Letters(s, start, []).value.1 == j
    ensures j + 1 <= |s|
    ensures ParseBracket(s, start, exclude) == Suffix(s, j + 1, exclude, members)
  {
    var l := Letters(s, start, []);
    var r := Suffix(s, j + 1, exclude, members);
    assert ParseBracket(s, start, exclude) == if l.value.0 == [] then None else r;
  }

  /** A set token starting at position i (at `[` or `*`). */
  function ParseSet(s: string, i: nat): (r: Option<(Expr, nat)>)
    requires i < |s| && (s[i] == '[' || s[i] == '*')
    ensures r.Some? ==> i < r.value.1 <= |s| && WellFormedExpr(r.value.0) && r.value.0.Set?
    ensures r.Some? && s[i] != '[' ==> !r.value.0.exclude && r.value.0.members == Kinds
    ensures r.Some? && s[i] == '[' ==>
      r.value.0.exclude == (i + 1 < |s| && s[i + 1] == '^') && r.value.0.members == WrittenKinds(s[i..r.value.1])
  {
    if s[i] == '[' then
      var exclude := i + 1 < |s| && s[i + 1] == '^';
      var start := if exclude then i + 2 else i + 1;
      var r := ParseBracket(s, start, exclude);
      if r.Some? then OpeningNamesNoKind(s, i, start, r.value.1); r else r
    else
      var r := ParseStar(s, i + 1);
      assert r.Some? ==> !r.value.0.exclude && r.value.0.members == Kinds;
      r
  }

  /** The `[` or `[^` that opens a set names no kind. */
  lemma OpeningNamesNoKind(s: string, i: nat, start: nat, e: nat)
    requires i < start <= e <= |s| && start <= i + 2 && s[i] == '['
    requires start == i + 2 ==> s[i + 1] == '^'
    ensures WrittenKinds(s[i..e]) == WrittenKinds(s[start..e])
  {
    assert s[i..e] == s[i..start] + s[start..e];
    WrittenKindsAppend(s[i..start], s[start..e]);
    WrittenKindsOfNone(s[i..start]);
  }

  /** A `*` token: the set of all seven kinds, not an exclusion, with its count suffix. */
  function ParseStar(s: string, k: nat): (r: Option<(Expr, nat)>)
    requires 0 < k <= |s|
    ensures r.Some? ==> k <= r.value.1 <= |s| && WellFormedExpr(r.value.0) && r.value.0.Set?
    ensures r.Some? ==> !r.value.0.exclude && r.value.0.members == Kinds
  {
    Suffix(s, k, false, Kinds)
  }

  /** The tokens from position i on, appended to those already parsed. */
  function ParseFrom(s: string, i: nat, acc: seq<Expr>): (r: Option<seq<Expr>>)
    requires i <= |s|
    ensures r.Some? ==> |r.value| > 0
    ensures r.Some? && WellFormedExprs(acc) ==> WellFormedExprs(r.value)
    decreases |s| - i
  {
    if i == |s| then (if acc == [] then None else Some(acc))
    else if IsSeparator(s[i]) then ParseFrom(s, i + 1, acc)
    else if s[i] == '[' || s[i] == '*' then
      match ParseSet(s, i)
      case None => None
      case Some((e, j)) => ParseFrom(s, j, acc + [e])
    else if IsAlpha(s[i]) then
      if LetterKind(s[i]).None? then None else ParseFrom(s, i + 1, acc + [Single(ToUpper(s[i]))])
    else None
  }

  /** The tokens of a whole spec; none for an invalid spec. A valid spec has at least one
      token, every token is well formed, and a character outside the alphabet anywhere in the
      text makes the spec invalid. */
  function Parse(s: string): (r: Option<seq<Expr>>)
    ensures r.Some? ==> |r.value| > 0 && WellFormedExprs(r.value)
    ensures (exists j :: 0 <= j < |s| && !Allowed(s[j])) ==> r.None?
  {
    ParseFromAllowed(s, 0, []);
    ParseFrom(s, 0, [])
  }

  /** What `Letters` reads before the `]` is separators and piece letters. */
  lemma {:induction false} LettersChars(s: string, k: nat, acc: seq<MinoType>)
    requires k <= |s|
    ensures var r := Letters(s, k, acc);
      r.Some? ==> forall j :: k <= j < r.value.1 ==> IsSeparator(s[j]) || LetterKind(s[j]).Some?
    decreases |s| - k
  {
    if k < |s| && s[k] != ']' {
      if IsSeparator(s[k]) {
        LettersChars(s, k + 1, acc);
      } else if LetterKind(s[k]).Some? {
        LettersChars(s, k + 1, acc + [LetterKind(s[k]).value]);
      }
    }
  }

  /** What a count suffix reads is `!`, or `p` and digits. */
  lemma SuffixChars(s: string, k: nat, exclude: bool, members: seq<MinoType>)
    requires k <= |s| && |members| > 0
    ensures var r := Suffix(s, k, exclude, members);
      r.Some? ==> forall j :: k <= j < r.value.1 ==> s[j] == 'p' || s[j] == '!' || IsDigit(s[j])
  {
  }

  /** Every character of a set token is allowed in a spec. */
  lemma ParseSetAllowed(s: string, i: nat)
    requires i < |s| && (s[i] == '[' || s[i] == '*')
    ensures var r := ParseSet(s, i); r.Some? ==> forall j :: i <= j < r.value.1 ==> Allowed(s[j])
  {
    if s[i] == '[' {
      OpenedSetAllowed(s, i);
    } else {
      SuffixChars(s, i + 1, false, Kinds);
    }
  }

  /** Every character of a bracketed set, from its `[` on, is allowed. */
  lemma OpenedSetAllowed(s: string, i: nat)
    requires i < |s| && s[i] == '['
    ensures var r := ParseSet(s, i); r.Some? ==> forall j :: i <= j < r.value.1 ==> Allowed(s[j])
  {
    var exclude := i + 1 < |s| && s[i + 1] == '^';
    var start := if exclude then i + 2 else i + 1;
    BracketAllowed(s, start, exclude);
    OpensBracket(s, i, exclude, start);
  }

  lemma OpensBracket(s: string, i: nat, exclude: bool, start: nat)
    requires i < |s| && s[i] == '['
    requires exclude == (i + 1 < |s| && s[i + 1] == '^') && start == if exclude then i + 2 else i + 1
    ensures start <= |s| && ParseSet(s, i) == ParseBracket(s, start, exclude)
    ensures forall j :: i <= j < start ==> Allowed(s[j])
  {
  }

  /** Every character of a set body, from its letters to its count suffix, is allowed. */
  lemma BracketAllowed(s: string, start: nat, exclude: bool)
    requires start <= |s|
    ensures var r := ParseBracket(s, start, exclude);
      r.Some? ==> forall j :: start <= j < r.value.1 ==> Allowed(s[j])
  {
    var l := Letters(s, start, []);
    if l.Some? && l.value.0 != [] {
      LettersAllowed(s, start, []);
      BracketUnfolds(s, start, exclude, l.value.0, l.value.1);
      SuffixChars(s, l.value.1 + 1, exclude, l.value.0);
    }
  }

  /** Every character `Letters` reads, the closing `]` included, is allowed. */
  lemma LettersAllowed(s: string, k: nat, acc: seq<MinoType>)
    requires k <= |s| && Letters(s, k, acc).Some?
    ensures forall j :: k <= j <= Letters(s, k, acc).value.1 ==> Allowed(s[j])
  {
    LettersChars(s, k, acc);
    forall j | k <= j < Letters(s, k, acc).value.1 ensures Allowed(s[j]) {
      if !IsSeparator(s[j]) {
        PieceLetterIsAlpha(s[j]);
      }
    }
  }

  /** A spec the parser accepts from position i on holds only allowed characters there. */
  lemma {:induction false} ParseFromAllowed(s: string, i: nat, acc: seq<Expr>)
    requires i <= |s|
    ensures ParseFrom(s, i, acc).Some? ==> forall j :: i <= j < |s| ==> Allowed(s[j])
    decreases |s| - i
  {
    if i < |s| {
      if IsSeparator(s[i]) {
        ParseFromAllowed(s, i + 1, acc);
      } else if s[i] == '[' || s[i] == '*' {
        ParseSetAllowed(s, i);
        var r := ParseSet(s, i);
        if r.Some? {
          ParseFromAllowed(s, r.value.1, acc + [r.value.0]);
        }
      } else if IsAlpha(s[i]) && LetterKind(s[i]).Some? {
        ParseFromAllowed(s, i + 1, acc + [Single(ToUpper(s[i]))]);
      }
    }
  }

  /** The parser only appends: the tokens parsed before position i come first, in order. */
  lemma {:induction false} ParseFromKeeps(s: string, i: nat, acc: seq<Expr>)
    requires i <= |s|
    ensures var r := ParseFrom(s, i, acc); r.Some? ==> |acc| <= |r.value| && r.value[..|acc|] == acc
    decreases |s| - i
  {
    if i < |s| {
      if IsSeparator(s[i]) {
        ParseFromKeeps(s, i + 1, acc);
      } else if s[i] == '[' || s[i] == '*' {
        var r := ParseSet(s, i);
        if r.Some? {
          ParseFromKeeps(s, r.value.1, acc + [r.value.0]);
          PrefixOfLonger(ParseFrom(s, r.value.1, acc + [r.value.0]), acc, r.value.0);
        }
      } else if IsAlpha(s[i]) && LetterKind(s[i]).Some? {
        ParseFromKeeps(s, i + 1, acc + [Single(ToUpper(s[i]))]);
        PrefixOfLonger(ParseFrom(s, i + 1, acc + [Single(ToUpper(s[i]))]), acc, Single(ToUpper(s[i])));
      }
    }
  }

  lemma PrefixOfLonger(r: Option<seq<Expr>>, acc: seq<Expr>, e: Expr)
    requires r.Some? ==> |acc + [e]| <= |r.value| && r.value[..|acc + [e]|] == acc + [e]
    ensures r.Some? ==> |acc| <= |r.value| && r.value[..|acc|] == acc
  {
    if r.Some? {
      assert r.value[..|acc|] == r.value[..|acc + [e]|][..|acc|];
    }
  }

  /** The count of a `pN` suffix is the decimal value of its digits, wrapped to 32 bits. */
  lemma {:induction false} DigitsValue(s: string, k: nat, n: nat)
    requires k <= |s| && n < U32
    ensures var r := Digits(s, k, n);
      r.0 == (n * Pow10(r.1 - k) + Decimal(s[k..r.1])) % U32
    decreases |s| - k
  {
    if k < |s| && IsDigit(s[k]) {
      DigitsValue(s, k + 1, (n * 10 + Digit(s[k])) % U32);
      DigitsStep(s, k, n);
    } else {
      assert s[k..Digits(s, k, n).1] == [];
    }
  }

  /** One digit of DigitsValue: the claim for position k from the claim for k + 1. */
  lemma DigitsStep(s: string, k: nat, n: nat)
    requires k < |s| && IsDigit(s[k]) && n < U32
    requires var n' := (n * 10 + Digit(s[k])) % U32; var r := Digits(s, k + 1, n');
      r.0 == (n' * Pow10(r.1 - (k + 1)) + Decimal(s[k + 1..r.1])) % U32
    ensures var r := Digits(s, k, n);
      r.0 == (n * Pow10(r.1 - k) + Decimal(s[k..r.1])) % U32
  {
    var r := Digits(s, k, n);
    var d := Digit(s[k]);
    var n' := (n * 10 + d) % U32;
    assert r == Digits(s, k + 1, n');
    DecimalSplit(s, k, r.1);
    AppendDigit(n, d, Pow10(r.1 - k - 1), Decimal(s[k + 1..r.1]), r.0, Pow10(r.1 - k), Decimal(s[k..r.1]));
  }

  /** The first digit of a digit run times its place, plus the value of the rest. */
  lemma DecimalSplit(s: string, k: nat, e: nat)
    requires k < e <= |s| && forall j :: k <= j < e ==> IsDigit(s[j])
    ensures Decimal(s[k..e]) == Digit(s[k]) * Pow10(e - k - 1) + Decimal(s[k + 1..e])
    ensures Pow10(e - k) == 10 * Pow10(e - k - 1)
  {
    var ds := s[k..e];
    assert ds[0] == s[k] && ds[1..] == s[k + 1..e];
  }

  lemma AppendDigit(n: nat, d: nat, p: nat, x: nat, v: nat, p10: nat, dec: nat)
    requires v == (((n * 10 + d) % U32) * p + x) % U32
    requires p10 == 10 * p && dec == d * p + x
    ensures v == (n * p10 + dec) % U32
  {
    ModMulAdd(n * 10 + d, p, x);
    ShiftDigit(n, d, p, x);
  }

  lemma ShiftDigit(n: nat, d: nat, p: nat, x: nat)
    ensures (n * 10 + d) * p + x == n * (10 * p) + (d * p + x)
  {
  }

  lemma ModMulAdd(a: nat, b: nat, c: nat)
    ensures ((a % U32) * b + c) % U32 == (a * b + c) % U32
  {
    var q := a / U32;
    assert a == q * U32 + a % U32;
    assert a * b + c == (q * b) * U32 + ((a % U32) * b + c) by {
      assert a * b == (q * U32) * b + (a % U32) * b;
    }
    ModAddMultiple((a % U32) * b + c, q * b);
  }

  lemma ModAddMultiple(x: nat, q: nat)
    ensures (q * U32 + x) % U32 == x % U32
  {
  }

  // ---------------------------------------------------------------- separators and joining

  /** Separators between tokens are skipped: parsing across a run of them is parsing after
      it. */
  lemma {:induction false} SkipSeparators(s: string, i: nat, j: nat, acc: seq<Expr>)
    requires i <= j <= |s|
    requires forall c :: c in s[i..j] ==> IsSeparator(c)
    ensures ParseFrom(s, i, acc) == ParseFrom(s, j, acc)
    decreases j - i
  {
    if i < j {
      assert s[i] in s[i..j] && s[i + 1..j] == s[i..j][1..];
      SkipSeparators(s, i + 1, j, acc);
      SeparatorSkipped(s, i, acc);
    }
  }

  /** A separator at the top level is skipped. */
  lemma SeparatorSkipped(s: string, i: nat, acc: seq<Expr>)
    requires i < |s| && IsSeparator(s[i])
    ensures ParseFrom(s, i, acc) == ParseFrom(s, i + 1, acc)
  {
  }

  /** A spec of separators only names no token, so it is invalid. */
  lemma SeparatorsOnly(s: string)
    requires forall c :: c in s ==> IsSeparator(c)
    ensures Parse(s) == None
  {
    assert s[0..|s|] == s;
    SkipSeparators(s, 0, |s|, []);
  }

  /** Two valid specs joined by a separator parse to the tokens of the first followed by the
      tokens of the second. */
  lemma JoinSpecs(a: string, c: char, b: string)
    requires IsSeparator(c) && Parse(a).Some? && Parse(b).Some?
    ensures Parse(a + [c] + b) == Some(Parse(a).value + Parse(b).value)
  {
    var s := a + [c] + b;
    var x := Parse(a).value;
    assert s == a + ([c] + b);
    ParseFromExtend(a, [c] + b, 0, []);
    assert s == (a + [c]) + b && s[|a|] == c;
    SeparatorSkipped(s, |a|, x);
    assert s[|a| + 1..] == b[0..];
    ParseFromAgree(s, |a| + 1, b, 0, x);
    ParseFromAcc(b, 0, x, []);
    assert x + [] == x;
  }

  /** Two one-token specs joined by a separator make a spec of those two tokens. */
  lemma JoinSingles(a: string, c: char, b: string, x: Expr, y: Expr)
    requires IsSeparator(c) && Parse(a) == Some([x]) && Parse(b) == Some([y])
    ensures Parse(a + [c] + b) == Some([x, y])
  {
    JoinSpecs(a, c, b);
    assert [x] + [y] == [x, y];
  }

  /** A token read from a text ends before a separator that follows the text: parsing the
      text and then what follows is parsing the longer text. */
  lemma {:induction false} ParseFromExtend(a: string, t: string, i: nat, acc: seq<Expr>)
    requires i <= |a| && |t| > 0 && IsSeparator(t[0]) && ParseFrom(a, i, acc).Some?
    ensures ParseFrom(a + t, i, acc) == ParseFrom(a + t, |a|, ParseFrom(a, i, acc).value)
    decreases |a| - i
  {
    if i < |a| {
      assert (a + t)[i] == a[i];
      if IsSeparator(a[i]) {
        SeparatorSkipped(a, i, acc);
        SeparatorSkipped(a + t, i, acc);
        ParseFromExtend(a, t, i + 1, acc);
      } else if a[i] == '[' || a[i] == '*' {
        var r := ParseSet(a, i);
        ParseSetExtend(a, t, i);
        SetStep(a, i, acc, r.value.0, r.value.1);
        SetStep(a + t, i, acc, r.value.0, r.value.1);
        ParseFromExtend(a, t, r.value.1, acc + [r.value.0]);
      } else {
        assert LetterKind(a[i]).Some?;
        SingleStep(a, i, acc);
        SingleStep(a + t, i, acc);
        ParseFromExtend(a, t, i + 1, acc + [Single(ToUpper(a[i]))]);
      }
    }
  }

  /** Token by token: a set, a bracket body, its letters, its count and a count's digits read
      from a text are read the same when a separator follows the text. */
  lemma ParseSetExtend(a: string, t: string, i: nat)
    requires i < |a| && (a[i] == '[' || a[i] == '*') && |t| > 0 && IsSeparator(t[0])
    requires ParseSet(a, i).Some?
    ensures ParseSet(a + t, i) == ParseSet(a, i)
  {
    assert (a + t)[i] == a[i];
    if a[i] == '[' {
      var exclude := i + 1 < |a| && a[i + 1] == '^';
      var start := if exclude then i + 2 else i + 1;
      OpensBracket(a, i, exclude, start);
      if i + 1 < |a| {
        assert (a + t)[i + 1] == a[i + 1];
      }
      BracketExtend(a, t, start, exclude);
      OpensBracket(a + t, i, exclude, start);
    } else {
      SuffixExtend(a, t, i + 1, false, Kinds);
    }
  }

  lemma BracketExtend(a: string, t: string, start: nat, exclude: bool)
    requires start <= |a| && |t| > 0 && IsSeparator(t[0]) && ParseBracket(a, start, exclude).Some?
    ensures ParseBracket(a + t, start, exclude) == ParseBracket(a, start, exclude)
  {
    var l := Letters(a, start, []);
    LettersExtend(a, t, start, []);
    BracketUnfolds(a, start, exclude, l.value.0, l.value.1);
    BracketUnfolds(a + t, start, exclude, l.value.0, l.value.1);
    SuffixExtend(a, t, l.value.1 + 1, exclude, l.value.0);
  }

  lemma {:induction false} LettersExtend(a: string, t: string, k: nat, acc: seq<MinoType>)
    requires k <= |a| && Letters(a, k, acc).Some?
    ensures Letters(a + t, k, acc) == Letters(a, k, acc)
    decreases |a| - k
  {
    assert (a + t)[k] == a[k];
    if a[k] != ']' {
      if IsSeparator(a[k]) {
        LettersExtend(a, t, k + 1, acc);
      } else {
        LettersExtend(a, t, k + 1, acc + [LetterKind(a[k]).value]);
      }
    }
  }

  lemma SuffixExtend(a: string, t: string, k: nat, exclude: bool, members: seq<MinoType>)
    requires k <= |a| && |members| > 0 && |t| > 0 && IsSeparator(t[0])
    requires Suffix(a, k, exclude, members).Some?
    ensures Suffix(a + t, k, exclude, members) == Suffix(a, k, exclude, members)
  {
    if k < |a| {
      assert (a + t)[k] == a[k];
      if a[k] == 'p' {
        assert (a + t)[k + 1] == a[k + 1];
        DigitsExtend(a, t, k + 1, 0);
      }
    } else {
      assert (a + t)[k] == t[0];
    }
  }

  lemma {:induction false} DigitsExtend(a: string, t: string, k: nat, n: nat)
    requires k <= |a| && n < U32 && |t| > 0 && !IsDigit(t[0])
    ensures Digits(a + t, k, n) == Digits(a, k, n)
    decreases |a| - k
  {
    if k < |a| {
      assert (a + t)[k] == a[k];
      if IsDigit(a[k]) {
        DigitsExtend(a, t, k + 1, (n * 10 + Digit(a[k])) % U32);
      }
    } else {
      assert (a + t)[k] == t[0];
    }
  }

  /** Parsing depends only on the text from the current position on: two texts whose tails
      agree parse those tails alike. */
  lemma {:induction false} ParseFromAgree(s1: string, i1: nat, s2: string, i2: nat, acc: seq<Expr>)
    requires i1 <= |s1| && i2 <= |s2| && s1[i1..] == s2[i2..]
    ensures ParseFrom(s1, i1, acc) == ParseFrom(s2, i2, acc)
    decreases |s1| - i1
  {
    if i1 < |s1| {
      TailsAgree(s1, i1, s2, i2);
      if IsSeparator(s1[i1]) {
        ParseFromAgree(s1, i1 + 1, s2, i2 + 1, acc);
      } else if s1[i1] == '[' || s1[i1] == '*' {
        ParseSetAgree(s1, i1, s2, i2);
        var r := ParseSet(s1, i1);
        if r.Some? {
          var j1 := r.value.1;
          var j2 := i2 + (j1 - i1);
          assert ParseSet(s2, i2) == Some((r.value.0, j2));
          LaterTailsAgree(s1, i1, j1, s2, i2, j2);
          ParseFromAgree(s1, j1, s2, j2, acc + [r.value.0]);
          SetStep(s1, i1, acc, r.value.0, j1);
          SetStep(s2, i2, acc, r.value.0, j2);
        } else {
          assert ParseSet(s2, i2).None?;
        }
      } else if IsAlpha(s1[i1]) && LetterKind(s1[i1]).Some? {
        ParseFromAgree(s1, i1 + 1, s2, i2 + 1, acc + [Single(ToUpper(s1[i1]))]);
      }
    } else {
      assert |s2| == i2;
    }
  }

  /** A piece letter at the top level is one single token, upper-cased. */
  lemma SingleStep(s: string, i: nat, acc: seq<Expr>)
    requires i < |s| && !IsSeparator(s[i]) && s[i] != '[' && s[i] != '*' && LetterKind(s[i]).Some?
    ensures ParseFrom(s, i, acc) == ParseFrom(s, i + 1, acc + [Single(ToUpper(s[i]))])
  {
    PieceLetterIsAlpha(s[i]);
  }

  /** A set token is parsed and the parse goes on after it. */
  lemma SetStep(s: string, i: nat, acc: seq<Expr>, e: Expr, j: nat)
    requires i < |s| && (s[i] == '[' || s[i] == '*') && ParseSet(s, i) == Some((e, j))
    ensures j <= |s| && ParseFrom(s, i, acc) == ParseFrom(s, j, acc + [e])
  {
  }

  /** Agreeing tails share their first character and the rest. */
  lemma TailsAgree(s1: string, i1: nat, s2: string, i2: nat)
    requires i1 < |s1| && i2 <= |s2| && s1[i1..] == s2[i2..]
    ensures i2 < |s2| && s1[i1] == s2[i2] && s1[i1 + 1..] == s2[i2 + 1..]
  {
    assert s1[i1] == s1[i1..][0] && s2[i2] == s2[i2..][0];
    assert s1[i1 + 1..] == s1[i1..][1..] && s2[i2 + 1..] == s2[i2..][1..];
  }

  /** Agreeing tails agree further along too. */
  lemma LaterTailsAgree(s1: string, k1: nat, m1: nat, s2: string, k2: nat, m2: nat)
    requires k1 <= m1 <= |s1| && k2 <= |s2| && s1[k1..] == s2[k2..] && m2 - k2 == m1 - k1
    ensures m2 <= |s2| && s1[m1..] == s2[m2..]
  {
    assert s1[m1..] == s1[k1..][m1 - k1..];
    assert s2[m2..] == s2[k2..][m1 - k1..];
  }

  /** Token by token: a set, a bracket body, its letters, its count and a count's digits read
      the same from agreeing tails, and end at the same offset into them. */
  lemma ParseSetAgree(s1: string, i1: nat, s2: string, i2: nat)
    requires i1 < |s1| && i2 <= |s2| && s1[i1..] == s2[i2..] && (s1[i1] == '[' || s1[i1] == '*')
    ensures i2 < |s2| && s2[i2] == s1[i1]
    ensures var r1 := ParseSet(s1, i1); var r2 := ParseSet(s2, i2);
      r2.Some? == r1.Some? && (r1.Some? ==> r2.value.0 == r1.value.0 && r2.value.1 - i2 == r1.value.1 - i1)
  {
    TailsAgree(s1, i1, s2, i2);
    if s1[i1] == '[' {
      var exclude := i1 + 1 < |s1| && s1[i1 + 1] == '^';
      var start1 := if exclude then i1 + 2 else i1 + 1;
      var start2 := if exclude then i2 + 2 else i2 + 1;
      if i1 + 1 < |s1| {
        TailsAgree(s1, i1 + 1, s2, i2 + 1);
      }
      if exclude {
        TailsAgree(s1, i1 + 1, s2, i2 + 1);
      }
      OpensBracket(s1, i1, exclude, start1);
      OpensBracket(s2, i2, exclude, start2);
      BracketAgree(s1, start1, s2, start2, exclude);
    } else {
      SuffixAgree(s1, i1 + 1, s2, i2 + 1, false, Kinds);
    }
  }

  /** A bracket without a closing `]` after letters, or with no letters, is invalid. */
  lemma BracketEmpty(s: string, k: nat, exclude: bool)
    requires k <= |s| && (Letters(s, k, []).None? || Letters(s, k, []).value.0 == [])
    ensures ParseBracket(s, k, exclude).None?
  {
  }

  lemma ClosedBracketAgree(s1: string, k1: nat, j1: nat, s2: string, k2: nat, j2: nat,
                           exclude: bool, members: seq<MinoType>)
    requires k1 <= |s1| && k2 <= |s2| && members != []
    requires Letters(s1, k1, []).Some? && Letters(s1, k1, []).value.0 == members
    requires Letters(s1, k1, []).value.1 == j1
    requires Letters(s2, k2, []).Some? && Letters(s2, k2, []).value.0 == members
    requires Letters(s2, k2, []).value.1 == j2
    requires j2 - k2 == j1 - k1 && s1[j1 + 1..] == s2[j2 + 1..]
    ensures var r1 := ParseBracket(s1, k1, exclude); var r2 := ParseBracket(s2, k2, exclude);
      r2.Some? == r1.Some? && (r1.Some? ==> r2.value.0 == r1.value.0 && r2.value.1 - k2 == r1.value.1 - k1)
  {
    BracketUnfolds(s1, k1, exclude, members, j1);
    BracketUnfolds(s2, k2, exclude, members, j2);
    SuffixAgree(s1, j1 + 1, s2, j2 + 1, exclude, members);
  }

  lemma BracketAgree(s1: string, k1: nat, s2: string, k2: nat, exclude: bool)
    requires k1 <= |s1| && k2 <= |s2| && s1[k1..] == s2[k2..]
    ensures var r1 := ParseBracket(s1, k1, exclude); var r2 := ParseBracket(s2, k2, exclude);
      r2.Some? == r1.Some? && (r1.Some? ==> r2.value.0 == r1.value.0 && r2.value.1 - k2 == r1.value.1 - k1)
  {
    var l1, l2 := Letters(s1, k1, []), Letters(s2, k2, []);
    LettersAgree(s1, k1, s2, k2, []);
    if l1.Some? && l1.value.0 != [] {
      var j1 := l1.value.1;
      var j2 := k2 + (j1 - k1);
      LaterTailsAgree(s1, k1, j1 + 1, s2, k2, j2 + 1);
      ClosedBracketAgree(s1, k1, j1, s2, k2, j2, exclude, l1.value.0);
    } else {
      assert l2.None? || l2.value.0 == [];
      BracketEmpty(s1, k1, exclude);
      BracketEmpty(s2, k2, exclude);
    }
  }

  lemma {:induction false} LettersAgree(s1: string, k1: nat, s2: string, k2: nat, acc: seq<MinoType>)
    requires k1 <= |s1| && k2 <= |s2| && s1[k1..] == s2[k2..]
    ensures var r1 := Letters(s1, k1, acc); var r2 := Letters(s2, k2, acc);
      r2.Some? == r1.Some? && (r1.Some? ==> r2.value.0 == r1.value.0 && r2.value.1 - k2 == r1.value.1 - k1)
    decreases |s1| - k1
  {
    if k1 < |s1| {
      TailsAgree(s1, k1, s2, k2);
      if s1[k1] != ']' {
        if IsSeparator(s1[k1]) {
          LettersAgree(s1, k1 + 1, s2, k2 + 1, acc);
        } else if LetterKind(s1[k1]).Some? {
          LettersAgree(s1, k1 + 1, s2, k2 + 1, acc + [LetterKind(s1[k1]).value]);
        }
      }
    } else {
      assert |s2| == k2;
    }
  }

  lemma SuffixAgree(s1: string, k1: nat, s2: string, k2: nat, exclude: bool, members: seq<MinoType>)
    requires k1 <= |s1| && k2 <= |s2| && s1[k1..] == s2[k2..] && |members| > 0
    ensures var r1 := Suffix(s1, k1, exclude, members); var r2 := Suffix(s2, k2, exclude, members);
      r2.Some? == r1.Some? && (r1.Some? ==> r2.value.0 == r1.value.0 && r2.value.1 - k2 == r1.value.1 - k1)
  {
    if k1 < |s1| {
      TailsAgree(s1, k1, s2, k2);
      if s1[k1] == 'p' && k1 + 1 < |s1| {
        TailsAgree(s1, k1 + 1, s2, k2 + 1);
        DigitsAgree(s1, k1 + 1, s2, k2 + 1, 0);
      }
    } else {
      assert |s2| == k2;
    }
  }

  lemma {:induction false} DigitsAgree(s1: string, k1: nat, s2: string, k2: nat, n: nat)
    requires k1 <= |s1| && k2 <= |s2| && s1[k1..] == s2[k2..] && n < U32
    ensures Digits(s2, k2, n).0 == Digits(s1, k1, n).0
    ensures Digits(s2, k2, n).1 - k2 == Digits(s1, k1, n).1 - k1
    decreases |s1| - k1
  {
    if k1 < |s1| {
      TailsAgree(s1, k1, s2, k2);
      if IsDigit(s1[k1]) {
        DigitsAgree(s1, k1 + 1, s2, k2 + 1, (n * 10 + Digit(s1[k1])) % U32);
      }
    } else {
      assert |s2| == k2;
    }
  }

  /** Tokens parsed before a tail stay in front of the tail's tokens. */
  lemma {:induction false} ParseFromAcc(s: string, i: nat, x: seq<Expr>, acc: seq<Expr>)
    requires i <= |s| && ParseFrom(s, i, acc).Some?
    ensures ParseFrom(s, i, x + acc) == Some(x + ParseFrom(s, i, acc).value)
    decreases |s| - i
  {
    if i < |s| {
      if IsSeparator(s[i]) {
        ParseFromAcc(s, i + 1, x, acc);
      } else if s[i] == '[' || s[i] == '*' {
        var r := ParseSet(s, i);
        ParseFromAcc(s, r.value.1, x, acc + [r.value.0]);
        assert (x + acc) + [r.value.0] == x + (acc + [r.value.0]);
      } else {
        var e := Single(ToUpper(s[i]));
        ParseFromAcc(s, i + 1, x, acc + [e]);
        assert (x + acc) + [e] == x + (acc + [e]);
      }
    }
  }

  // ---------------------------------------------------------------- examples

  /** `[^O]!`: one token drawing from every kind but O; `!` counts the one letter written. */
  lemma ExclusionExample()
    ensures Parse("[^O]!") == Some([Set(true, 1, [O])])
  {
    var s := "[^O]!";
    assert s[0] == '[' && s[1] == '^' && s[2] == 'O' && s[3] == ']' && s[4] == '!';
    assert LetterKind('O') == Some(O);
    var e := Set(true, 1, [O]);
    assert [] + [O] == [O] && [] + [e] == [e];
    assert Letters(s, 3, [] + [O]) == Some(([O], 3));
    assert Letters(s, 2, []) == Some(([O], 3));
    assert Suffix(s, 4, true, [O]) == Some((e, 5));
    assert ParseSet(s, 0) == Some((e, 5));
    assert ParseFrom(s, 5, [] + [e]) == Some([e]);
  }

  /** `*`: one piece drawn from all seven kinds. */
  lemma StarExample()
    ensures Parse("*") == Some([Set(false, 1, Kinds)])
  {
    var s := "*";
    assert s[0] == '*';
    assert Suffix(s, 1, false, Kinds) == Some((Set(false, 1, Kinds), 1));
    assert ParseSet(s, 0) == Some((Set(false, 1, Kinds), 1));
    assert [] + [Set(false, 1, Kinds)] == [Set(false, 1, Kinds)];
  }

  /** `i`: a lower-case letter names its piece, stored upper-case. */
  lemma LowerCaseExample()
    ensures Parse("i") == Some([Single('I')])
  {
    var s := "i";
    assert s[0] == 'i' && LetterKind('i') == Some(I) && ToUpper('i') == 'I';
    assert [] + [Single('I')] == [Single('I')];
  }

  /** `[SZ]p2`: two pieces drawn from S and Z. */
  lemma CountExample()
    ensures Parse("[SZ]p2") == Some([Set(false, 2, [S, Z])])
  {
    var s := "[SZ]p2";
    var e := Set(false, 2, [S, Z]);
    CountExampleLetters();
    CountExampleSuffix();
    assert s[0] == '[' && s[1] == 'S';
    assert [] + [e] == [e];
    assert ParseSet(s, 0) == Some((e, 6));
  }

  lemma CountExampleLetters()
    ensures Letters("[SZ]p2", 1, []) == Some(([S, Z], 3))
  {
    var s := "[SZ]p2";
    assert s[1] == 'S' && s[2] == 'Z' && s[3] == ']';
    assert LetterKind('S') == Some(S) && LetterKind('Z') == Some(Z);
    assert [] + [S] == [S] && [S] + [Z] == [S, Z];
    assert Letters(s, 3, [S] + [Z]) == Some(([S, Z], 3));
    assert Letters(s, 2, [] + [S]) == Some(([S, Z], 3));
  }

  lemma CountExampleSuffix()
    ensures Suffix("[SZ]p2", 4, false, [S, Z]) == Some((Set(false, 2, [S, Z]), 6))
  {
    var s := "[SZ]p2";
    assert s[4] == 'p' && s[5] == '2';
    assert Digits(s, 6, 2) == (2, 6);
    assert Digits(s, 5, 0) == (2, 6);
    assert s[5..6] == "2" && Decimal("2") == 2;
  }

  /** The empty spec names no piece. */
  lemma EmptyExample()
    ensures Parse("") == None
  {
  }

  /** `[]` and `[^]`: a set must name at least one kind. */
  lemma EmptySetExample()
    ensures Parse("[]") == None && Parse("[^]") == None
  {
    var s, t := "[]", "[^]";
    assert s[0] == '[' && s[1] == ']';
    assert Letters(s, 1, []) == Some(([], 1));
    assert ParseSet(s, 0) == None;
    assert t[0] == '[' && t[1] == '^' && t[2] == ']';
    assert Letters(t, 2, []) == Some(([], 2));
    assert ParseSet(t, 0) == None;
  }

  /** `[IJ`: a set must be closed. */
  lemma UnclosedExample()
    ensures Parse("[IJ") == None
  {
    var s := "[IJ";
    assert s[0] == '[' && s[1] == 'I' && s[2] == 'J';
    assert LetterKind('I') == Some(I) && LetterKind('J') == Some(J);
    assert Letters(s, 3, [I, J]) == None;
    assert Letters(s, 1, []) == None;
    assert ParseSet(s, 0) == None;
  }

  /** `p` and `Xp2`: a letter that names no piece makes the spec invalid. */
  lemma UnknownLetterExample()
    ensures Parse("p") == None && Parse("Xp2") == None
  {
    var s, t := "p", "Xp2";
    assert s[0] == 'p' && t[0] == 'X';
    assert LetterKind('p') == None && LetterKind('X') == None;
  }

  /** `[IJ]p3` and `[IJ]p0`: a count must lie between 1 and the number of letters. */
  lemma CountRangeExample()
    ensures Parse("[IJ]p3") == None && Parse("[IJ]p0") == None
  {
    CountOutOfRange('3');
    CountOutOfRange('0');
    assert "[IJ]p3" == "[IJ]p" + ['3'] && "[IJ]p0" == "[IJ]p" + ['0'];
  }

  lemma CountOutOfRangeLetters(d: char)
    ensures Letters("[IJ]p" + [d], 1, []) == Some(([I, J], 3))
  {
    var s := "[IJ]p" + [d];
    assert s[1] == 'I' && s[2] == 'J' && s[3] == ']';
    assert LetterKind('I') == Some(I) && LetterKind('J') == Some(J);
    assert [] + [I] == [I] && [I] + [J] == [I, J];
    assert Letters(s, 3, [I] + [J]) == Some(([I, J], 3));
    assert Letters(s, 2, [] + [I]) == Some(([I, J], 3));
  }

  lemma CountOutOfRange(d: char)
    requires d == '0' || d == '3'
    ensures Parse("[IJ]p" + [d]) == None
  {
    var s := "[IJ]p" + [d];
    CountOutOfRangeLetters(d);
    assert s[0] == '[' && s[1] == 'I' && s[4] == 'p' && s[5] == d;
    assert IsDigit(d) && Digit(d) == Decimal([d]);
    assert Digits(s, 6, Digit(d)) == (Digit(d), 6);
    assert Digits(s, 5, 0) == (Digit(d), 6);
    assert s[5..6] == [d];
    assert Suffix(s, 4, false, [I, J]) == None;
    assert ParseSet(s, 0) == None;
  }

  /** ` i,o`: separators around and between tokens are skipped. */
  lemma SeparatedLettersExample()
    ensures Parse(" i,o") == Some([Single('I'), Single('O')])
  {
    var s := " i,o";
    assert s[0] == ' ' && s[1] == 'i' && s[2] == ',' && s[3] == 'o';
    assert LetterKind('i') == Some(I) && LetterKind('o') == Some(O);
    assert ToUpper('i') == 'I' && ToUpper('o') == 'O';
    var two := [Single('I'), Single('O')];
    assert [] + [Single('I')] == [Single('I')] && [Single('I')] + [Single('O')] == two;
    assert ParseFrom(s, 4, two) == Some(two);
    assert ParseFrom(s, 3, [Single('I')]) == Some(two);
    assert ParseFrom(s, 2, [Single('I')]) == Some(two);
    assert ParseFrom(s, 1, []) == Some(two);
  }

  /** `[^O]!,*`: two set tokens joined by a separator. */
  lemma JoinedSetsExample()
    ensures Parse("[^O]!,*") == Some([Set(true, 1, [O]), Set(false, 1, Kinds)])
  {
    var a, b := "[^O]!", "*";
    ExclusionExample();
    StarExample();
    JoinSingles(a, ',', b, Set(true, 1, [O]), Set(false, 1, Kinds));
    var s := "[^O]!,*";
    assert s == a + [','] + b;
  }

  /** ` , `: a spec of separators only is invalid. */
  lemma BlankSpecExample()
    ensures Parse(" , ") == None
  {
    var s := " , ";
    assert s[0] == ' ' && s[1] == ',' && s[2] == ' ';
    SeparatorsOnly(s);
  }

  // ---------------------------------------------------------------- the parser as a loop

  /** The letters of a bracketed set, read up to the closing `]`. */
  method ScanLetters(s: string, start: nat) returns (members: seq<MinoType>, j: nat, ok: bool)
    requires start <= |s|
    ensures ok <==> Letters(s, start, []).Some?
    ensures ok ==> Letters(s, start, []) == Some((members, j))
  {
    members := [];
    j := start;
    while true
      invariant start <= j <= |s|
      invariant Letters(s, j, members) == Letters(s, start, [])
      decreases |s| - j
    {
      if j == |s| {
        ok := false;
        return;
      }
      if s[j] == ']' {
        break;
      }
      if IsSeparator(s[j]) {
        j := j + 1;
        continue;
      }
      var t := LetterKind(s[j]);
      if t.None? {
        ok := false;
        return;
      }
      members := members + [t.value];
      j := j + 1;
    }
    ok := true;
  }

  /** The count suffix of a set token. */
  method ScanSuffix(s: string, k: nat, exclude: bool, members: seq<MinoType>) returns (e: Expr, j: nat, ok: bool)
    requires k <= |s| && |members| > 0
    ensures ok <==> Suffix(s, k, exclude, members).Some?
    ensures ok ==> Suffix(s, k, exclude, members) == Some((e, j))
  {
    e := Set(exclude, 0, members);
    j := k;
    var count: nat;
    if j < |s| && s[j] == 'p' {
      j := j + 1;
      if j == |s| || !IsDigit(s[j]) {
        ok := false;
        return;
      }
      var n: nat := 0;
      while j < |s| && IsDigit(s[j])
        invariant k + 1 <= j <= |s| && n < U32
        invariant Digits(s, j, n) == Digits(s, k + 1, 0)
        decreases |s| - j
      {
        n := (n * 10 + Digit(s[j])) % U32;
        j := j + 1;
      }
      if n == 0 || n > |members| {
        ok := false;
        return;
      }
      count := n;
    } else if j < |s| && s[j] == '!' {
      j := j + 1;
      count := |members|;
    } else {
      count := 1;
    }
    e := Set(exclude, count, members);
    ok := true;
  }

  /** A bracketed set token whose letters start at `start`. */
  method ScanBracket(s: string, start: nat, exclude: bool) returns (e: Expr, j: nat, ok: bool)
    requires start <= |s|
    ensures ok <==> ParseBracket(s, start, exclude).Some?
    ensures ok ==> ParseBracket(s, start, exclude) == Some((e, j))
  {
    e := Single(' ');
    var members;
    members, j, ok := ScanLetters(s, start);
    if !ok {
      return;
    }
    j := j + 1;
    if members == [] {
      ok := false;
      return;
    }
    BracketUnfolds(s, start, exclude, members, j - 1);
    e, j, ok := ScanSuffix(s, j, exclude, members);
  }

  /** A set token, at `[` or `*`. */
  method ScanSet(s: string, i: nat) returns (e: Expr, j: nat, ok: bool)
    requires i < |s| && (s[i] == '[' || s[i] == '*')
    ensures ok <==> ParseSet(s, i).Some?
    ensures ok ==> ParseSet(s, i) == Some((e, j))
  {
    j := i + 1;
    if s[i] == '[' {
      var exclude := false;
      if j < |s| && s[j] == '^' {
        exclude := true;
        j := j + 1;
      }
      e, j, ok := ScanBracket(s, j, exclude);
    } else {
      e, j, ok := ScanSuffix(s, j, false, Kinds);
    }
  }

  /** The parser, walking the text with one cursor (a `valid` flag false plays the part of
      `is_valid = false`). */
  method Scan(s: string) returns (exprs: seq<Expr>, valid: bool)
    ensures valid <==> Parse(s).Some?
    ensures valid ==> Parse(s) == Some(exprs)
  {
    var i := 0;
    exprs := [];
    while i < |s|
      invariant 0 <= i <= |s|
      invariant ParseFrom(s, i, exprs) == Parse(s)
      decreases |s| - i
    {
      if IsSeparator(s[i]) {
        i := i + 1;
        continue;
      }
      if s[i] == '[' || s[i] == '*' {
        var e, j, ok := ScanSet(s, i);
        if !ok {
          valid := false;
          return;
        }
        exprs := exprs + [e];
        i := j;
      } else if IsAlpha(s[i]) {
        if LetterKind(s[i]).None? {
          valid := false;
          return;
        }
        exprs := exprs + [Single(ToUpper(s[i]))];
        i := i + 1;
      } else {
        valid := false;
        return;
      }
    }
    if exprs == [] {
      valid := false;
      return;
    }
    valid := true;
  }

  // ---------------------------------------------------------------- matching

  /** Position of a real kind in I, J, L, O, S, T, Z (the index of the `__chk` flags). */
  function KindIndex(k: MinoType): (r: nat)
    requires k != INVALID
    ensures r < 7 && Kinds[r] == k
  {
    match k
    case I => 0
    case J => 1
    case L => 2
    case O => 3
    case S => 4
    case T => 5
    case Z => 6
  }

  /** A run of pieces a set token accepts: each is in the set (outside it, for an exclusion),
      and no kind occurs twice. */
  predicate Chunk(c: seq<MinoType>, exclude: bool, members: seq<MinoType>) {
    && (forall a :: 0 <= a < |c| ==> (c[a] in members) != exclude)
    && (forall a, b :: 0 <= a < b < |c| ==> c[a] != c[b])
  }

  /** Whether a sequence of kinds is exactly what the tokens describe, with nothing left
      over. A literal accepts one piece of its kind. */
  function MatchFrom(exprs: seq<Expr>, kinds: seq<MinoType>): bool
    decreases |exprs|
  {
    if exprs == [] then kinds == []
    else match exprs[0]
      case Single(t) =>
        |kinds| > 0 && LetterKind(t) == Some(kinds[0]) && MatchFrom(exprs[1..], kinds[1..])
      case Set(exclude, count, members) =>
        count <= |kinds| && Chunk(kinds[..count], exclude, members) && MatchFrom(exprs[1..], kinds[count..])
  }

  /** How many pieces the tokens describe. */
  function Width(exprs: seq<Expr>): nat
    decreases |exprs|
  {
    if exprs == [] then 0
    else (if exprs[0].Single? then 1 else exprs[0].count) + Width(exprs[1..])
  }

  /** A matching sequence is exactly as long as the tokens describe. */
  lemma {:induction false} MatchHasWidth(exprs: seq<Expr>, kinds: seq<MinoType>)
    requires MatchFrom(exprs, kinds)
    ensures |kinds| == Width(exprs)
    decreases |exprs|
  {
    if exprs != [] {
      match exprs[0]
      case Single(_) => MatchHasWidth(exprs[1..], kinds[1..]);
      case Set(_, count, _) => MatchHasWidth(exprs[1..], kinds[count..]);
    }
  }

  /** The inner loop of `seqinfo::match` for one set token, with its table of the kinds
      already seen. A piece of no real kind would index past that table, so the pieces must
      be of real kinds. */
  method MatchChunk(c: seq<Mino>, exclude: bool, members: seq<MinoType>) returns (ok: bool)
    requires forall p :: p in c ==> p.kind != INVALID
    ensures ok == Chunk(KindsOf(c), exclude, members)
  {
    ghost var ks := KindsOf(c);
    var seen := new bool[7](_ => false);
    var q := 0;
    while q < |c|
      invariant 0 <= q <= |c|
      invariant Chunk(ks[..q], exclude, members)
      invariant forall x :: 0 <= x < 7 ==> (seen[x] <==> Kinds[x] in ks[..q])
      decreases |c| - q
    {
      var p := c[q];
      assert p in c && ks[q] == p.kind;
      var found := p.kind in members;
      var x := KindIndex(p.kind);
      ChunkStep(ks[..q], p.kind, exclude, members);
      assert ks[..q + 1] == ks[..q] + [p.kind];
      if found == exclude || seen[x] {
        ChunkPrefix(ks, q + 1, exclude, members);
        return false;
      }
      seen[x] := true;
      q := q + 1;
    }
    assert ks[..q] == ks;
    return true;
  }

  /** One more kind keeps a chunk a chunk exactly when it is allowed and new. */
  lemma ChunkStep(s: seq<MinoType>, k: MinoType, exclude: bool, members: seq<MinoType>)
    requires Chunk(s, exclude, members)
    ensures Chunk(s + [k], exclude, members) <==> (k in members) != exclude && k !in s
  {
    var t := s + [k];
    assert t[|s|] == k;
    if k in s {
      var a :| 0 <= a < |s| && s[a] == k;
      assert t[a] == t[|s|];
    }
  }

  lemma ChunkPrefix(s: seq<MinoType>, i: nat, exclude: bool, members: seq<MinoType>)
    requires i <= |s|
    ensures Chunk(s, exclude, members) ==> Chunk(s[..i], exclude, members)
  {
  }

  /** `seqinfo::match`: one cursor over the pieces, token by token, with nothing left over. */
  method MatchTokens(exprs: seq<Expr>, pieces: seq<Mino>) returns (ok: bool)
    requires forall p :: p in pieces ==> p.kind != INVALID
    ensures ok == MatchFrom(exprs, KindsOf(pieces))
  {
    ghost var ks := KindsOf(pieces);
    var it := 0;
    var e := 0;
    while e < |exprs|
      invariant 0 <= e <= |exprs| && 0 <= it <= |pieces|
      invariant MatchFrom(exprs[e..], ks[it..]) == MatchFrom(exprs, ks)
      decreases |exprs| - e
    {
      var accepted, n := MatchToken(exprs[e], pieces, it);
      MatchAdvance(exprs, e, ks, it, accepted, n);
      if !accepted {
        return false;
      }
      it := it + n;
      e := e + 1;
    }
    ok := it == |pieces|;
  }

  /** How many kinds the token takes from the front of the sequence, if it accepts them. */
  function Takes(x: Expr, kinds: seq<MinoType>): (r: Option<nat>)
    ensures r.Some? ==> r.value <= |kinds|
  {
    match x
    case Single(t) => if |kinds| > 0 && LetterKind(t) == Some(kinds[0]) then Some(1) else None
    case Set(exclude, count, members) =>
      if count <= |kinds| && Chunk(kinds[..count], exclude, members) then Some(count) else None
  }

  /** The tokens from index e match the kinds from index it exactly when token e takes some
      of them and the remaining tokens match the rest. */
  lemma MatchFromAt(exprs: seq<Expr>, e: nat, kinds: seq<MinoType>, it: nat)
    requires e < |exprs| && it <= |kinds|
    ensures var n := Takes(exprs[e], kinds[it..]);
      MatchFrom(exprs[e..], kinds[it..]) == (n.Some? && MatchFrom(exprs[e + 1..], kinds[it + n.value..]))
  {
    var n := Takes(exprs[e], kinds[it..]);
    assert exprs[e..][0] == exprs[e] && exprs[e..][1..] == exprs[e + 1..];
    if n.Some? {
      assert kinds[it..][n.value..] == kinds[it + n.value..];
    }
  }

  /** What one step of `match` leaves to match. */
  lemma MatchAdvance(exprs: seq<Expr>, e: nat, kinds: seq<MinoType>, it: nat, accepted: bool, n: nat)
    requires e < |exprs| && it <= |kinds|
    requires var r := Takes(exprs[e], kinds[it..]); accepted == r.Some? && (accepted ==> n == r.value)
    ensures !accepted ==> !MatchFrom(exprs[e..], kinds[it..])
    ensures accepted ==> it + n <= |kinds| && MatchFrom(exprs[e..], kinds[it..]) == MatchFrom(exprs[e + 1..], kinds[it + n..])
  {
    MatchFromAt(exprs, e, kinds, it);
  }

  /** One token of `match`, on the pieces from index it on. */
  method MatchToken(x: Expr, pieces: seq<Mino>, it: nat) returns (ok: bool, n: nat)
    requires forall p :: p in pieces ==> p.kind != INVALID
    requires it <= |pieces|
    ensures var r := Takes(x, KindsOf(pieces)[it..]);
      ok == r.Some? && (ok ==> n == r.value)
  {
    ghost var ks := KindsOf(pieces)[it..];
    match x {
      case Single(t) =>
        ok := it < |pieces| && LetterKind(t) == Some(pieces[it].kind);
        n := 1;
      case Set(exclude, count, members) =>
        n := count;
        if count > |pieces| - it {
          return false, n;
        }
        var c := pieces[it..it + count];
        assert KindsOf(c) == ks[..count];
        ok := MatchChunk(c, exclude, members);
    }
  }

  // ---------------------------------------------------------------- generation

  /** The kinds not named by an exclusion set, in the order I, J, L, O, S, T, Z. */
  function Complement(members: seq<MinoType>): (r: seq<MinoType>)
    ensures forall k :: k in r <==> k in Kinds && k !in members
    ensures Distinct(r)
  {
    FilterOut(Kinds, members)
  }

  function FilterOut(xs: seq<MinoType>, members: seq<MinoType>): (r: seq<MinoType>)
    ensures forall k :: k in r <==> k in xs && k !in members
    ensures Distinct(xs) ==> Distinct(r)
  {
    if xs == [] then []
    else (if xs[0] in members then [] else [xs[0]]) + FilterOut(xs[1..], members)
  }

  /** The kinds a set token draws from. */
  function Pool(exclude: bool, members: seq<MinoType>): seq<MinoType> {
    if exclude then Complement(members) else members
  }

  /** The kinds generated by the tokens from here on, appended to those already generated;
      none when a set is empty, an exclusion leaves nothing to draw, or nothing at all was
      generated. Every generated piece is the canonical piece of its kind. */
  function Draw(exprs: seq<Expr>, rng: Entropy, acc: seq<MinoType>): Option<seq<MinoType>>
    decreases |exprs|
  {
    if exprs == [] then (if acc == [] then None else Some(acc))
    else match exprs[0]
      case Single(t) =>
        (match LetterKind(t)
         case None => None
         case Some(k) => Draw(exprs[1..], rng, acc + [k]))
      case Set(exclude, count, members) =>
        if members == [] then None
        else
          var pool := Pool(exclude, members);
          if pool == [] then None
          else
            var (drawn, rest) := Arrange(pool, RandomChoice.Min(count, |pool|), rng);
            Draw(exprs[1..], rest, acc + drawn)
  }

  /** `seqinfo::generate`. */
  function Generate(exprs: seq<Expr>, rng: Entropy): Option<seq<Mino>> {
    match Draw(exprs, rng, [])
    case None => None
    case Some(ks) => Some(Shapes(ks))
  }

  /** An exclusion token naming all seven kinds. */
  ghost predicate Blocked(exprs: seq<Expr>) {
    exists k :: 0 <= k < |exprs| && exprs[k].Set? && exprs[k].exclude && Complement(exprs[k].members) == []
  }

  lemma {:induction false} DrawFails(exprs: seq<Expr>, rng: Entropy, acc: seq<MinoType>)
    requires WellFormedExprs(exprs)
    ensures Draw(exprs, rng, acc).None? <==> Blocked(exprs) || (exprs == [] && acc == [])
    decreases |exprs|
  {
    if exprs != [] {
      var e := exprs[0];
      assert e in exprs;
      assert WellFormedExprs(exprs[1..]) by {
        forall x | x in exprs[1..] ensures WellFormedExpr(x) {
          assert x in exprs;
        }
      }
      assert Blocked(exprs) <==> Blocked(exprs[1..]) || (e.Set? && e.exclude && Complement(e.members) == []) by {
        if Blocked(exprs[1..]) {
          var k :| 0 <= k < |exprs[1..]| && exprs[1..][k].Set? && exprs[1..][k].exclude
            && Complement(exprs[1..][k].members) == [];
          assert exprs[k + 1] == exprs[1..][k];
        }
        if Blocked(exprs) {
          var k :| 0 <= k < |exprs| && exprs[k].Set? && exprs[k].exclude && Complement(exprs[k].members) == [];
          if k > 0 {
            assert exprs[1..][k - 1] == exprs[k];
          }
        }
      }
      match e
      case Single(t) =>
        assert ToUpper(t) == t;
        DrawFails(exprs[1..], rng, acc + [LetterKind(t).value]);
      case Set(exclude, count, members) =>
        var pool := Pool(exclude, members);
        if pool != [] {
          var (drawn, rest) := Arrange(pool, RandomChoice.Min(count, |pool|), rng);
          DrawFails(exprs[1..], rest, acc + drawn);
        }
    }
  }

  /** A parsed spec fails to generate exactly when one of its exclusion sets names all seven
      kinds. */
  lemma GenerateFailsIffBlocked(exprs: seq<Expr>, rng: Entropy)
    requires |exprs| > 0 && WellFormedExprs(exprs)
    ensures Generate(exprs, rng).None? <==> Blocked(exprs)
  {
    DrawFails(exprs, rng, []);
  }

  /** Set tokens that can always be drawn in full: a plain set names no kind twice, and an
      exclusion leaves at least as many kinds as it draws. */
  ghost predicate Drawable(exprs: seq<Expr>) {
    forall e :: e in exprs && e.Set? ==>
      if e.exclude then e.count <= |Complement(e.members)| else Distinct(e.members)
  }

  /** The kinds one well-formed, drawable token generates, and the engine after it. */
  function Step(e: Expr, rng: Entropy): (r: (seq<MinoType>, Entropy))
    requires WellFormedExpr(e) && (e.Set? && e.exclude ==> e.count <= |Complement(e.members)|)
    ensures |r.0| == if e.Single? then 1 else e.count
  {
    match e
    case Single(t) => ([LetterKind(t).value], rng)
    case Set(exclude, count, members) => Arrange(Pool(exclude, members), count, rng)
  }

  lemma StepUnfolds(exprs: seq<Expr>, rng: Entropy, acc: seq<MinoType>)
    requires exprs != [] && WellFormedExpr(exprs[0])
    requires exprs[0].Set? && exprs[0].exclude ==> exprs[0].count <= |Complement(exprs[0].members)|
    ensures var (step, rest) := Step(exprs[0], rng);
      Draw(exprs, rng, acc) == Draw(exprs[1..], rest, acc + step)
  {
    match exprs[0]
    case Single(t) =>
      assert ToUpper(t) == t;
    case Set(exclude, count, members) =>
      assert RandomChoice.Min(count, |Pool(exclude, members)|) == count;
  }

  /** What one token generates is what it accepts. */
  lemma StepMatches(e: Expr, rng: Entropy)
    requires WellFormedExpr(e)
    requires e.Set? ==> if e.exclude then e.count <= |Complement(e.members)| else Distinct(e.members)
    ensures var step := Step(e, rng).0;
      if e.Single? then LetterKind(e.t) == Some(step[0]) else Chunk(step, e.exclude, e.members)
  {
    if e.Set? {
      var pool := Pool(e.exclude, e.members);
      var drawn := Step(e, rng).0;
      SubMultisetOfDistinct(drawn, pool);
      forall a | 0 <= a < |drawn| ensures drawn[a] in pool {
        assert drawn[a] in multiset(drawn);
      }
    }
  }

  lemma MatchFromSplit(exprs: seq<Expr>, w: seq<MinoType>, n: nat)
    requires exprs != [] && n <= |w|
    requires exprs[0].Single? ==> n == 1 && LetterKind(exprs[0].t) == Some(w[0])
    requires exprs[0].Set? ==> n == exprs[0].count && Chunk(w[..n], exprs[0].exclude, exprs[0].members)
    requires MatchFrom(exprs[1..], w[n..])
    ensures MatchFrom(exprs, w)
  {
  }

  lemma PrefixSplit<X>(r: seq<X>, acc: seq<X>, step: seq<X>)
    requires |acc + step| <= |r| && r[..|acc + step|] == acc + step
    ensures r[..|acc|] == acc && r[|acc|..][..|step|] == step && r[|acc|..][|step|..] == r[|acc + step|..]
  {
    assert r[..|acc|] == r[..|acc + step|][..|acc|];
    assert r[|acc|..][..|step|] == r[..|acc + step|][|acc|..];
  }

  lemma {:induction false} DrawMatches(exprs: seq<Expr>, rng: Entropy, acc: seq<MinoType>)
    requires WellFormedExprs(exprs) && Drawable(exprs) && (exprs != [] || acc != [])
    ensures Draw(exprs, rng, acc).Some?
    ensures var r := Draw(exprs, rng, acc).value; |acc| <= |r| && r[..|acc|] == acc && MatchFrom(exprs, r[|acc|..])
    decreases |exprs|
  {
    if exprs == [] {
      assert acc[|acc|..] == [];
    } else {
      var e := exprs[0];
      assert e in exprs;
      assert WellFormedExprs(exprs[1..]) && Drawable(exprs[1..]) by {
        forall x | x in exprs[1..] ensures x in exprs {
        }
      }
      var (step, rest) := Step(e, rng);
      StepUnfolds(exprs, rng, acc);
      DrawMatches(exprs[1..], rest, acc + step);
      var r := Draw(exprs, rng, acc).value;
      PrefixSplit(r, acc, step);
      StepMatches(e, rng);
      MatchFromSplit(exprs, r[|acc|..], |step|);
    }
  }

  /** Generation and matching agree: whatever the draws, the pieces generated from a parsed,
      drawable spec match that spec. */
  lemma GenerateMatches(exprs: seq<Expr>, rng: Entropy)
    requires |exprs| > 0 && WellFormedExprs(exprs) && Drawable(exprs)
    ensures Generate(exprs, rng).Some? && MatchFrom(exprs, KindsOf(Generate(exprs, rng).value))
  {
    DrawMatches(exprs, rng, []);
    KindsOfShapes(Draw(exprs, rng, []).value);
  }

  lemma OneTokenDraws(e: Expr, rng: Entropy)
    requires WellFormedExpr(e) && (e.Set? && e.exclude ==> e.count <= |Complement(e.members)|)
    ensures Draw([e], rng, []) == Some(Step(e, rng).0)
  {
    StepUnfolds([e], rng, []);
    assert [e][1..] == [];
    assert [] + Step(e, rng).0 == Step(e, rng).0;
  }

  /** A plain set that names a kind twice and draws all its letters (such as `[II]p2` or
      `[SZS]!`) generates that kind twice, and the result then does not match the very spec
      it came from. */
  lemma RepeatedLetterBreaksMatch(e: Expr, rng: Entropy)
    requires WellFormedExpr(e) && e.Set? && !e.exclude && e.count == |e.members| && !Distinct(e.members)
    ensures Generate([e], rng).Some?
    ensures !MatchFrom([e], KindsOf(Generate([e], rng).value))
  {
    OneTokenDraws(e, rng);
    var d := Step(e, rng).0;
    assert Generate([e], rng) == Some(Shapes(d));
    KindsOfShapes(d);
    PermutationKeepsRepeat(e.members, d);
    SetTokenMatches(e, d);
  }

  /** An exclusion set whose count is above the number of kinds it leaves (such as
      `[^IJLOST]p2`) generates every kind left, fewer pieces than it asks for, and the result
      then does not match the very spec it came from. */
  lemma ShortPoolBreaksMatch(e: Expr, rng: Entropy)
    requires WellFormedExpr(e) && e.Set? && e.exclude && 0 < |Complement(e.members)| < e.count
    ensures var pool := Complement(e.members);
      Generate([e], rng) == Some(Shapes(Arrange(pool, |pool|, rng).0))
    ensures |Generate([e], rng).value| == |Complement(e.members)|
    ensures !MatchFrom([e], KindsOf(Generate([e], rng).value))
  {
    var pool := Complement(e.members);
    var (drawn, rest) := Arrange(pool, RandomChoice.Min(e.count, |pool|), rng);
    assert [e][1..] == [];
    assert Draw([e], rng, []) == Draw([], rest, [] + drawn);
    assert [] + drawn == drawn;
    assert Generate([e], rng) == Some(Shapes(drawn));
    KindsOfShapes(drawn);
    SetTokenMatches(e, drawn);
  }

  /** `[^IJLOST]p2`: the only kind left is Z, and the one piece drawn is a Z. */
  lemma ShortPoolExample(m: seq<MinoType>, rng: Entropy)
    requires m == [I, J, L, O, S, T]
    ensures var e := Set(true, 2, m);
      Generate([e], rng).Some? && KindsOf(Generate([e], rng).value) == [Z] && !MatchFrom([e], [Z])
  {
    var e := Set(true, 2, m);
    OnlyZLeft(m);
    OthersReal(m);
    ShortPoolBreaksMatch(e, rng);
    DrawOfOne(Z, 2, rng);
    KindsOfShapes([Z]);
  }

  lemma OthersReal(m: seq<MinoType>)
    requires m == [I, J, L, O, S, T]
    ensures RealKinds(m) && |m| == 6
  {
  }

  /** Excluding all kinds but Z leaves Z alone. */
  lemma OnlyZLeft(m: seq<MinoType>)
    requires m == [I, J, L, O, S, T]
    ensures Complement(m) == [Z]
  {
    OthersNamed();
    FilterOutAllButLast(m, Z);
    assert Kinds == m + [Z];
  }

  /** Filtering out all of m from m followed by one more kind leaves that kind. */
  lemma FilterOutAllButLast(m: seq<MinoType>, z: MinoType)
    requires z !in m
    ensures FilterOut(m + [z], m) == [z]
  {
    FilterOutOfNamed(m, m);
    FilterOutAppend(m, [z], m);
    assert [z][1..] == [];
  }

  /** Which kinds `[^IJLOST]` names, and that Z is not among them. */
  lemma OthersNamed()
    ensures Z !in [I, J, L, O, S, T]
  {
  }

  lemma {:induction false} FilterOutOfNamed(xs: seq<MinoType>, m: seq<MinoType>)
    requires forall x :: x in xs ==> x in m
    ensures FilterOut(xs, m) == []
  {
    if xs != [] {
      assert xs[0] in xs;
      FilterOutOfNamed(xs[1..], m);
    }
  }

  lemma {:induction false} FilterOutAppend(a: seq<MinoType>, b: seq<MinoType>, m: seq<MinoType>)
    ensures FilterOut(a + b, m) == FilterOut(a, m) + FilterOut(b, m)
  {
    if a == [] {
      assert a + b == b;
    } else {
      assert (a + b)[1..] == a[1..] + b;
      FilterOutAppend(a[1..], b, m);
    }
  }

  /** Drawing from a pool of one gives that one element, however many are asked for. */
  lemma DrawOfOne<T>(x: T, count: nat, rng: Entropy)
    requires count >= 1
    ensures RandomChoice.Min(count, 1) == 1 && Arrange([x], 1, rng).0 == [x]
  {
    assert Remove([x], 0) == [];
    assert Arrange([x], 1, rng).0 == [x] + Arrange([], 0, Tail(rng)).0;
  }

  /** A single set token matches exactly a chunk of its count. */
  lemma SetTokenMatches(e: Expr, kinds: seq<MinoType>)
    requires e.Set?
    ensures MatchFrom([e], kinds) <==> e.count == |kinds| && Chunk(kinds, e.exclude, e.members)
  {
    assert [e][1..] == [];
    if e.count <= |kinds| {
      assert kinds[e.count..] == [] <==> e.count == |kinds|;
      assert e.count == |kinds| ==> kinds[..e.count] == kinds;
    }
  }

  /** `seqinfo::generate`, token by token, threading the random engine. Every piece pushed is
      the canonical piece of its kind, so the loop collects kinds and builds the pieces at the
      end. */
  method GenerateTokens(exprs: seq<Expr>, rng: Entropy) returns (r: Option<seq<Mino>>)
    ensures r == Generate(exprs, rng)
  {
    var result: seq<MinoType> := [];
    var engine := rng;
    var e := 0;
    while e < |exprs|
      invariant 0 <= e <= |exprs|
      invariant Draw(exprs[e..], engine, result) == Draw(exprs, rng, [])
      decreases |exprs| - e
    {
      assert exprs[e..][0] == exprs[e] && exprs[e..][1..] == exprs[e + 1..];
      match exprs[e] {
        case Single(t) =>
          var k := LetterKind(t);
          if k.None? {
            return None;
          }
          result := result + [k.value];
        case Set(exclude, count, members) =>
          if members == [] {
            return None;
          }
          var pool := if exclude then Complement(members) else members;
          if pool == [] {
            return None;
          }
          var draw := Arrange(pool, RandomChoice.Min(count, |pool|), engine);
          engine := draw.1;
          result := result + draw.0;
      }
      e := e + 1;
    }
    if result == [] {
      return None;
    }
    return Some(Shapes(result));
  }

  // ---------------------------------------------------------------- entry points

  /** `tetromino::gen`: the pieces a spec generates, none for an invalid spec. */
  function Generated(spec: string, rng: Entropy): Option<seq<Mino>> {
    match Parse(spec)
    case None => None
    case Some(exprs) => Generate(exprs, rng)
  }

  /** `tetromino::sequence_match`: whether the pieces conform to a valid spec. */
  function Conforms(pieces: seq<Mino>, spec: string): bool {
    match Parse(spec)
    case None => false
    case Some(exprs) => MatchFrom(exprs, KindsOf(pieces))
  }

  /** The round trip of the two entry points: generated pieces conform to their spec. */
  lemma GeneratedConforms(spec: string, rng: Entropy)
    requires Parse(spec).Some? && Drawable(Parse(spec).value)
    ensures Generated(spec, rng).Some? && Conforms(Generated(spec, rng).value, spec)
  {
    GenerateMatches(Parse(spec).value, rng);
  }

  method Gen(spec: string, rng: Entropy) returns (r: Option<seq<Mino>>)
    ensures r == Generated(spec, rng)
  {
    var exprs, valid := Scan(spec);
    if !valid {
      return None;
    }
    r := GenerateTokens(exprs, rng);
  }

  method SequenceMatch(pieces: seq<Mino>, spec: string) returns (ok: bool)
    requires forall p :: p in pieces ==> p.kind != INVALID
    ensures ok == Conforms(pieces, spec)
  {
    var exprs, valid := Scan(spec);
    if !valid {
      return false;
    }
    ok := MatchTokens(exprs, pieces);
  }
}
