/** Variable expansion in job values (`expand`): one pass over the text, equal to the meaning
    of the only way to read it. */
module Expansion {

  /** `is_ascii_alphabetic` or underscore. */
  predicate StartsName(c: char) {
    'a' <= c <= 'z' || 'A' <= c <= 'Z' || c == '_'
  }

  predicate ContinuesName(c: char) {
    StartsName(c) || '0' <= c <= '9'
  }

  /** `is_valid_key` */
  predicate IsValidKey(key: string) {
    key != "" && StartsName(key[0]) && forall i | 0 <= i < |key| :: ContinuesName(key[i])
  }

  /** What a text is made of. */
  datatype Token =
    | Literal(c: char)
    | Dollar // $$
    | Braced(name: string) // ${name}
    | Named(name: string) // $name
    | Lone // a $ that begins none of these

  /** A token behind its dollar. */
  function Behind(t: Token): string
    requires !t.Literal?
  {
    match t
    case Dollar => "$"
    case Braced(name) => "{" + name + "}"
    case Named(name) => name
    case Lone => ""
  }

  function PrintToken(t: Token): (s: string)
    ensures s != ""
  {
    if t.Literal? then [t.c] else "$" + Behind(t)
  }

  function PrintAll(ts: seq<Token>): string {
    if ts == [] then "" else PrintToken(ts[0]) + PrintAll(ts[1..])
  }

  type Values = map<string, string>

  /** Unknown names mean nothing. */
  function Lookup(values: Values, name: string): string {
    if name in values then values[name] else ""
  }

  function MeaningOf(t: Token, values: Values): string {
    match t
    case Literal(c) => [c]
    case Dollar => "$"
    case Braced(name) => Lookup(values, name)
    case Named(name) => Lookup(values, name)
    case Lone => "$"
  }

  function Meaning(ts: seq<Token>, values: Values): string {
    if ts == [] then "" else MeaningOf(ts[0], values) + Meaning(ts[1..], values)
  }

  /** Length of the name at the front. */
  function NameLength(s: string): (n: nat)
    ensures n <= |s| && (n > 0 ==> IsValidKey(s[..n]))
    ensures n == 0 ==> s == "" || !StartsName(s[0])
    ensures 0 < n < |s| ==> !ContinuesName(s[n])
  {
    if s == "" || !StartsName(s[0]) then 0 else NameEnd(s, 1)
  }

  function NameEnd(s: string, i: nat): (n: nat)
    requires i <= |s| && forall k | 0 <= k < i :: ContinuesName(s[k])
    ensures i <= n <= |s| && forall k | 0 <= k < n :: ContinuesName(s[k])
    ensures n < |s| ==> !ContinuesName(s[n])
    decreases |s| - i
  {
    if i < |s| && ContinuesName(s[i]) then NameEnd(s, i + 1) else i
  }

  /** `str::find`; the length if there is none. */
  function Find(s: string, c: char): (n: nat)
    ensures n <= |s| && (n < |s| ==> s[n] == c)
    ensures forall i | 0 <= i < n :: s[i] != c
  {
    if s == "" || s[0] == c then 0 else 1 + Find(s[1..], c)
  }

  /** What a dollar begins. */
  function AfterDollar(after: string): (t: Token) {
    if after != "" && after[0] == '$' then Dollar
    else if after != "" && after[0] == '{' then AfterBrace(after[1..])
    else if NameLength(after) == 0 then Lone
    else Named(after[..NameLength(after)])
  }

  function AfterBrace(braced: string): (t: Token)
    ensures t.Braced? ==> |t.name| < |braced| && braced == t.name + "}" + braced[|t.name| + 1..] && IsValidKey(t.name)
    ensures t.Braced? || t.Lone?
  {
    var end := Find(braced, '}');
    if end < |braced| && IsValidKey(braced[..end]) then Braced(braced[..end]) else Lone
  }

  lemma AfterDollarPrints(after: string)
    ensures !AfterDollar(after).Literal? && Behind(AfterDollar(after)) <= after
  {
    var t := AfterDollar(after);
    if t.Braced? {
      var braced := after[1..];
      Bracketed("{", t.name, "}", braced[|t.name| + 1..]);
      assert after == "{" + braced;
    }
  }

  lemma Bracketed(a: string, b: string, c: string, d: string)
    ensures a + b + c <= a + (b + c + d)
  {
    assert a + (b + c + d) == (a + b + c) + d;
  }

  /** The token at the front of a text. */
  function FirstToken(s: string): (t: Token)
    requires s != ""
    ensures PrintToken(t) <= s
  {
    if s[0] != '$' then Literal(s[0])
    else
      AfterDollarPrints(s[1..]);
      assert s == "$" + s[1..];
      AfterDollar(s[1..])
  }

  function Tokenize(s: string): (ts: seq<Token>) {
    if s == "" then []
    else
      var t := FirstToken(s);
      [t] + Tokenize(s[|PrintToken(t)|..])
  }

  /** The tokens print back to the text: nothing is lost. */
  lemma {:induction false} TokensPrintBack(s: string)
    ensures PrintAll(Tokenize(s)) == s
  {
    if s != "" {
      var t := FirstToken(s);
      TokensPrintBack(s[|PrintToken(t)|..]);
      assert s == PrintToken(t) + s[|PrintToken(t)|..];
    }
  }

  // ---- There is no other way to read a text ----

  /** A token may stand in front of `rest`: literals are not dollars, names are names and end
      where no name character follows, and a lone dollar begins nothing. */
  ghost predicate Readable(t: Token, rest: string) {
    match t
    case Literal(c) => c != '$'
    case Dollar => true
    case Braced(name) => IsValidKey(name)
    case Named(name) => IsValidKey(name) && (rest == "" || !ContinuesName(rest[0]))
    case Lone => BeginsNothing(rest)
  }

  /** Behind a dollar, none of the other forms. */
  ghost predicate BeginsNothing(rest: string) {
    rest == "" || (rest[0] != '$' && !StartsName(rest[0]) && !exists name :: BracedInFront(name, rest))
  }

  predicate BracedInFront(name: string, rest: string) {
    IsValidKey(name) && "{" + name + "}" <= rest
  }

  ghost predicate AllReadable(ts: seq<Token>) {
    ts == [] || (Readable(ts[0], PrintAll(ts[1..])) && AllReadable(ts[1..]))
  }

  lemma {:induction false} FindAfter(a: string, c: char, b: string)
    requires forall i | 0 <= i < |a| :: a[i] != c
    ensures Find(a + [c] + b, c) == |a|
  {
    if a != "" {
      assert (a + [c] + b)[1..] == a[1..] + [c] + b;
      FindAfter(a[1..], c, b);
    }
  }

  lemma {:induction false} NameEndAfter(a: string, b: string, i: nat)
    requires i <= |a| && (forall k | 0 <= k < |a| :: ContinuesName(a[k])) && (b == "" || !ContinuesName(b[0]))
    ensures NameEnd(a + b, i) == |a|
    decreases |a| - i
  {
    if i < |a| {
      NameEndAfter(a, b, i + 1);
    }
  }

  lemma BracedIsFirst(name: string, rest: string)
    requires IsValidKey(name)
    ensures AfterDollar("{" + name + "}" + rest) == Braced(name)
  {
    var braced := name + ['}'] + rest;
    assert ("{" + name + "}" + rest)[1..] == braced;
    FindAfter(name, '}', rest);
    assert braced[..|name|] == name;
  }

  lemma NamedIsFirst(name: string, rest: string)
    requires IsValidKey(name) && (rest == "" || !ContinuesName(rest[0]))
    ensures AfterDollar(name + rest) == Named(name)
  {
    NameEndAfter(name, rest, 1);
  }

  lemma BracedIsSeen(name: string, rest: string)
    requires BracedInFront(name, rest)
    ensures AfterDollar(rest) == Braced(name)
  {
    var printed := "{" + name + "}";
    assert rest == printed + rest[|printed|..];
    BracedIsFirst(name, rest[|printed|..]);
  }

  /** A dollar is taken as it is exactly when nothing else can be read behind it. */
  lemma {:induction false} LoneExactly(rest: string)
    ensures AfterDollar(rest).Lone? <==> BeginsNothing(rest)
  {
    forall name | BracedInFront(name, rest) ensures AfterDollar(rest) == Braced(name) {
      BracedIsSeen(name, rest);
    }
    if AfterDollar(rest).Braced? {
      AfterDollarPrints(rest);
      assert BracedInFront(AfterDollar(rest).name, rest);
    }
  }

  lemma BehindDollar(t: Token, rest: string)
    requires Readable(t, rest) && !t.Literal?
    ensures AfterDollar(Behind(t) + rest) == t
  {
    match t
    case Dollar =>
    case Braced(name) => BracedIsFirst(name, rest);
    case Named(name) => NamedIsFirst(name, rest);
    case Lone =>
      LoneExactly(rest);
      assert "" + rest == rest;
  }

  /** A readable token is the first token. */
  lemma ReadableIsFirst(t: Token, rest: string)
    requires Readable(t, rest)
    ensures FirstToken(PrintToken(t) + rest) == t
  {
    if !t.Literal? {
      BehindDollar(t, rest);
      DollarInFront(Behind(t), rest);
    }
  }

  lemma DollarInFront(b: string, rest: string)
    ensures var s := ("$" + b) + rest; s != "" && s[0] == '$' && s[1..] == b + rest
  {
  }

  lemma {:induction false} OnlyReading(ts: seq<Token>)
    requires AllReadable(ts)
    ensures Tokenize(PrintAll(ts)) == ts
  {
    if ts != [] {
      var rest := PrintAll(ts[1..]);
      ReadableIsFirst(ts[0], rest);
      assert (PrintToken(ts[0]) + rest)[|PrintToken(ts[0])|..] == rest;
      OnlyReading(ts[1..]);
    }
  }

  lemma {:induction false} TokensAreReadable(s: string)
    ensures AllReadable(Tokenize(s))
  {
    if s != "" {
      var t := FirstToken(s);
      var rest := s[|PrintToken(t)|..];
      TokensAreReadable(rest);
      TokensPrintBack(rest);
      assert Tokenize(s)[1..] == Tokenize(rest);
      FirstIsReadable(s);
    }
  }

  lemma FirstIsReadable(s: string)
    requires s != ""
    ensures Readable(FirstToken(s), s[|PrintToken(FirstToken(s))|..])
  {
    LoneExactly(s[1..]);
  }

  /** `Tokenize` is the one and only way to read a text. */
  lemma {:induction false} UniqueReading(s: string, ts: seq<Token>)
    ensures AllReadable(ts) && PrintAll(ts) == s <==> ts == Tokenize(s)
  {
    TokensPrintBack(s);
    TokensAreReadable(s);
    if AllReadable(ts) {
      OnlyReading(ts);
    }
  }

  // ---- The loop ----

  lemma MeaningStep(s: string, values: Values)
    requires s != ""
    ensures var t := FirstToken(s);
            Meaning(Tokenize(s), values) == MeaningOf(t, values) + Meaning(Tokenize(s[|PrintToken(t)|..]), values)
  {
    var t := FirstToken(s);
    var rest := Tokenize(s[|PrintToken(t)|..]);
    assert ([t] + rest)[1..] == rest;
  }

  /** Any way to read texts that takes a literal as it is takes a run of them as it is. */
  lemma {:induction false} LiteralRun(read: string -> string, s: string, n: nat)
    requires forall r: string | r != "" && r[0] != '$' :: read(r) == [r[0]] + read(r[1..])
    requires n <= |s| && forall i | 0 <= i < n :: s[i] != '$'
    ensures read(s) == s[..n] + read(s[n..])
    decreases n
  {
    if n == 0 {
      assert s[0..] == s;
    } else {
      LiteralRun(read, s[1..], n - 1);
      assert s[1..][n - 1..] == s[n..] && s[..n] == [s[0]] + s[1..][..n - 1];
    }
  }

  lemma LiteralsMeanThemselves(s: string, n: nat, values: Values)
    requires n <= |s| && forall i | 0 <= i < n :: s[i] != '$'
    ensures Meaning(Tokenize(s), values) == s[..n] + Meaning(Tokenize(s[n..]), values)
  {
    var read := (r: string) => Meaning(Tokenize(r), values);
    forall r: string | r != "" && r[0] != '$' ensures read(r) == [r[0]] + read(r[1..]) {
      MeaningStep(r, values);
    }
    LiteralRun(read, s, n);
  }

  lemma LiteralText(s: string, values: Values)
    requires forall i | 0 <= i < |s| :: s[i] != '$'
    ensures Meaning(Tokenize(s), values) == s
  {
    LiteralsMeanThemselves(s, |s|, values);
    assert s[..|s|] == s && s[|s|..] == "";
  }

  /** One turn of the loop, behind a dollar. */
  method Substitute(after: string, values: Values) returns (piece: string, rest: string)
    ensures piece == MeaningOf(AfterDollar(after), values)
    ensures Behind(AfterDollar(after)) <= after && rest == after[|Behind(AfterDollar(after))|..]
  {
    AfterDollarPrints(after);
    if after != "" && after[0] == '$' {
      return "$", after[1..];
    }
    if after != "" && after[0] == '{' {
      var braced := after[1..];
      var end := Find(braced, '}');
      if end < |braced| && IsValidKey(braced[..end]) {
        return Lookup(values, braced[..end]), braced[end + 1..];
      }
      return "$", after;
    }
    var len := NameLength(after);
    if len == 0 {
      return "$", after[len..];
    }
    return Lookup(values, after[..len]), after[len..];
  }

  lemma DollarStep(after: string, rest: string, values: Values)
    requires Behind(AfterDollar(after)) <= after && rest == after[|Behind(AfterDollar(after))|..]
    ensures Meaning(Tokenize("$" + after), values)
         == MeaningOf(AfterDollar(after), values) + Meaning(Tokenize(rest), values)
  {
    assert ("$" + after)[1..] == after;
    assert ("$" + after)[1 + |Behind(AfterDollar(after))|..] == rest;
    MeaningStep("$" + after, values);
  }

  lemma Joined(a: string, b: string, c: string, d: string)
    ensures a + b + c + d == a + (b + (c + d))
  {
  }

  /** What stands in front of a dollar, what the dollar begins, and what is left. */
  lemma TurnMeans(rest: string, pos: nat, values: Values, after: string, left: string)
    requires pos < |rest| && rest[pos] == '$' && forall i | 0 <= i < pos :: rest[i] != '$'
    requires after == rest[pos + 1..]
    requires Behind(AfterDollar(after)) <= after && left == after[|Behind(AfterDollar(after))|..]
    ensures Meaning(Tokenize(rest), values)
         == rest[..pos] + (MeaningOf(AfterDollar(after), values) + Meaning(Tokenize(left), values))
  {
    LiteralsMeanThemselves(rest, pos, values);
    DollarStep(after, left, values);
    assert rest[pos..] == "$" + after;
  }

  /** One turn of the loop: literals up to a dollar, and what the dollar begins. */
  method OneTurn(out: string, rest: string, pos: nat, values: Values, ghost whole: string)
    returns (more: string, left: string)
    requires pos < |rest| && rest[pos] == '$' && forall i | 0 <= i < pos :: rest[i] != '$'
    requires out + Meaning(Tokenize(rest), values) == whole
    ensures more + Meaning(Tokenize(left), values) == whole && |left| < |rest|
  {
    var after := rest[pos + 1..];
    var piece;
    piece, left := Substitute(after, values);
    TurnMeans(rest, pos, values, after, left);
    more := out + rest[..pos] + piece;
    Joined(out, rest[..pos], piece, Meaning(Tokenize(left), values));
  }

  /** `expand` */
  method Expand(value: string, values: Values) returns (out: string)
    ensures out == Meaning(Tokenize(value), values)
  {
    out := "";
    var rest := value;
    ghost var whole := Meaning(Tokenize(value), values);
    var pos := Find(rest, '$');
    while pos < |rest|
      invariant out + Meaning(Tokenize(rest), values) == whole
      invariant pos == Find(rest, '$')
      decreases |rest|
    {
      out, rest := OneTurn(out, rest, pos, values, whole);
      pos := Find(rest, '$');
    }
    LiteralText(rest, values);
    out := out + rest;
  }

  // ---- What expansion promises ----

  /** A text in which every dollar is doubled. */
  function Doubled(s: string): string {
    if s == "" then "" else (if s[0] == '$' then "$$" else [s[0]]) + Doubled(s[1..])
  }

  lemma DoubledDollar(rest: string, values: Values)
    ensures Meaning(Tokenize("$$" + rest), values) == "$" + Meaning(Tokenize(rest), values)
  {
    assert "$$" + rest == "$" + ("$" + rest);
    assert ("$" + rest)[1..] == rest;
    DollarStep("$" + rest, rest, values);
  }

  /** Doubling every dollar protects a text: expansion gives it back, whatever the values. */
  lemma {:induction false} DoubledComesBack(s: string, values: Values)
    ensures Meaning(Tokenize(Doubled(s)), values) == s
  {
    if s != "" {
      var rest := Doubled(s[1..]);
      DoubledComesBack(s[1..], values);
      assert s == [s[0]] + s[1..];
      if s[0] == '$' {
        DoubledDollar(rest, values);
      } else {
        assert ([s[0]] + rest)[1..] == rest;
        MeaningStep([s[0]] + rest, values);
      }
    }
  }

  /** Which names there are: letters, digits and underscores of ASCII, with no digit in front. A name may
      begin with what is a name by itself, and go on with what may follow a letter. */
  lemma {:induction false} NamesExactly(key: string, c: char)
    ensures IsValidKey(key) <==>
              && key != "" && !('0' <= key[0] <= '9')
              && forall i | 0 <= i < |key| ::
                   'a' <= key[i] <= 'z' || 'A' <= key[i] <= 'Z' || '0' <= key[i] <= '9' || key[i] == '_'
    ensures StartsName(c) <==> IsValidKey([c])
    ensures ContinuesName(c) <==> IsValidKey(['x', c])
  {
    var two := ['x', c];
    assert two[1] == c && (IsValidKey(two) ==> ContinuesName(two[1]));
  }

  lemma ReadableMeans(t: Token, rest: string, values: Values)
    requires Readable(t, rest)
    ensures Meaning(Tokenize(PrintToken(t) + rest), values) == MeaningOf(t, values) + Meaning(Tokenize(rest), values)
  {
    ReadableIsFirst(t, rest);
    var printed := PrintToken(t);
    assert (printed + rest)[|printed|..] == rest;
    MeaningStep(printed + rest, values);
  }

  /** A value is put in as it is: dollars in it are not expanded again. A name stands for its value, with
      braces or, where the name ends, without; a name without a value stands for nothing. */
  lemma {:induction false} ValuesAreNotExpanded(head: string, name: string, rest: string, values: Values)
    requires (forall i | 0 <= i < |head| :: head[i] != '$') && IsValidKey(name)
    ensures var value := if name in values then values[name] else "";
            var after := Meaning(Tokenize(rest), values);
            && Meaning(Tokenize(head + ("${" + name + "}" + rest)), values) == head + (value + after)
            && (rest == "" || !ContinuesName(rest[0]) ==>
                  Meaning(Tokenize(head + ("$" + name + rest)), values) == head + (value + after))
  {
    assert "${" + name + "}" == "$" + ("{" + name + "}");
    ReadableMeans(Braced(name), rest, values);
    InFront(head, "${" + name + "}" + rest, values);
    if rest == "" || !ContinuesName(rest[0]) {
      ReadableMeans(Named(name), rest, values);
      InFront(head, "$" + name + rest, values);
    }
  }

  /** Two dollars are one, and a dollar that begins nothing else is kept. */
  lemma {:induction false} DollarsAreKept(head: string, rest: string, values: Values)
    requires forall i | 0 <= i < |head| :: head[i] != '$'
    ensures var kept := head + ("$" + Meaning(Tokenize(rest), values));
            && Meaning(Tokenize(head + ("$$" + rest)), values) == kept
            && (BeginsNothing(rest) ==> Meaning(Tokenize(head + ("$" + rest)), values) == kept)
  {
    DoubledDollar(rest, values);
    InFront(head, "$$" + rest, values);
    if BeginsNothing(rest) {
      ReadableMeans(Lone, rest, values);
      assert "$" + "" + rest == "$" + rest;
      InFront(head, "$" + rest, values);
    }
  }

  lemma InFront(head: string, tail: string, values: Values)
    requires forall i | 0 <= i < |head| :: head[i] != '$'
    ensures Meaning(Tokenize(head + tail), values) == head + Meaning(Tokenize(tail), values)
  {
    assert (head + tail)[..|head|] == head && (head + tail)[|head|..] == tail;
    LiteralsMeanThemselves(head + tail, |head|, values);
  }
}
