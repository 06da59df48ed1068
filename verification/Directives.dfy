/** The blanking of export directives at the end of `fold` in src/cmd/coff.rs, in place in a `.drectve` section. */
module Directives {
  import opened Words

  const SPACE: Byte := 32

  /** `u8::is_ascii_whitespace` */
  predicate White(b: Byte) {
    b == 9 || b == 10 || b == 12 || b == 13 || b == SPACE
  }

  function Lower(b: Byte): Byte {
    if 65 <= b <= 90 then b + 32 else b
  }

  /** `eq_ignore_ascii_case(b"export:")` of the seven bytes after the first. */
  predicate SaysExport(token: seq<Byte>)
    requires |token| >= 8
  {
    && Lower(token[1]) == 101 && Lower(token[2]) == 120 && Lower(token[3]) == 112 && Lower(token[4]) == 111
    && Lower(token[5]) == 114 && Lower(token[6]) == 116 && token[7] == 58
  }

  /** The token that is blanked: whatever its first byte, and only with something after the colon. */
  predicate IsExport(token: seq<Byte>) {
    |token| > 8 && SaysExport(token)
  }

  function TokenLength(s: seq<Byte>): (n: nat)
    ensures n <= |s| && (forall i | 0 <= i < n :: !White(s[i])) && (n < |s| ==> White(s[n]))
  {
    if s == [] || White(s[0]) then 0 else 1 + TokenLength(s[1..])
  }

  /** The whitespace-separated tokens. */
  function Tokens(s: seq<Byte>): seq<seq<Byte>> {
    if s == [] then [] else if White(s[0]) then Tokens(s[1..])
    else var n := TokenLength(s); [s[..n]] + Tokens(s[n..])
  }

  /** The tokens that are not blanked. */
  function Rest(tokens: seq<seq<Byte>>): seq<seq<Byte>> {
    if tokens == [] then [] else (if IsExport(tokens[0]) then [] else [tokens[0]]) + Rest(tokens[1..])
  }

  function Spaces(n: nat): (s: seq<Byte>)
    ensures |s| == n && forall i | 0 <= i < n :: s[i] == SPACE
  {
    seq(n, _ => SPACE)
  }

  /** The bytes once every export directive is blanked. */
  function Blanked(s: seq<Byte>): (r: seq<Byte>)
    ensures |r| == |s|
    ensures s != [] && White(s[0]) ==> r[0] == s[0]
  {
    if s == [] then [] else if White(s[0]) then [s[0]] + Blanked(s[1..])
    else var n := TokenLength(s); (if IsExport(s[..n]) then Spaces(n) else s[..n]) + Blanked(s[n..])
  }

  /** Fills the export directives with spaces and counts them. */
  method BlankExports(directives: array<Byte>) returns (removed: nat)
    modifies directives
    ensures directives[..] == Blanked(old(directives[..]))
    ensures removed == Count(old(directives[..]))
  {
    var start := 0;
    removed := 0;
    ghost var was, rest := directives[..], directives[..];
    while start < directives.Length
      invariant start <= directives.Length && directives[start..] == rest
      invariant directives[..start] + Blanked(rest) == Blanked(was)
      invariant removed + Count(rest) == Count(was)
    {
      var end, isExport := BlankStep(directives, start, rest);
      removed := removed + if isExport then 1 else 0;
      start, rest := end, rest[end - start..];
    }
  }

  /** The number of tokens blanked. */
  function Count(s: seq<Byte>): int {
    |Tokens(s)| - |Rest(Tokens(s))|
  }

  /** One turn of the loop: passes over a whitespace byte, or over a token. */
  method BlankStep(directives: array<Byte>, start: nat, ghost rest: seq<Byte>) returns (end: nat, isExport: bool)
    requires start < directives.Length && directives[start..] == rest
    modifies directives
    ensures start < end <= directives.Length && directives[end..] == rest[end - start..]
    ensures directives[..end] + Blanked(rest[end - start..]) == old(directives[..start]) + Blanked(rest)
    ensures Count(rest) == Count(rest[end - start..]) + if isExport then 1 else 0
  {
    assert directives[start] == rest[0];
    ghost var done := directives[..start];
    if White(directives[start]) {
      BlankWhite(done, rest);
      assert directives[..start + 1] == done + [rest[0]];
      end, isExport := start + 1, false;
    } else {
      end, isExport := BlankNext(directives, start, rest);
      BlankToken(done, rest, end - start);
    }
  }

  /** Blanks the token at `start` if it is an export directive. */
  method BlankNext(directives: array<Byte>, start: nat, ghost rest: seq<Byte>) returns (end: nat, isExport: bool)
    requires start < directives.Length && directives[start..] == rest && !White(rest[0])
    modifies directives
    ensures start < end <= directives.Length && end - start == TokenLength(rest)
            && isExport == IsExport(rest[..end - start])
    ensures directives[..end] == old(directives[..start]) + if isExport then Spaces(end - start)
              else rest[..end - start]
    ensures directives[end..] == rest[end - start..]
  {
    assert directives[start] == rest[0];
    end := TokenEnd(directives, start);
    assert directives[start..end] == rest[..end - start] && directives[end..] == rest[end - start..];
    isExport := IsExport(directives[start..end]);
    if isExport {
      Fill(directives, start, end);
    }
    assert directives[..end] == directives[..start] + directives[start..end];
  }

  lemma BlankWhite(done: seq<Byte>, s: seq<Byte>)
    requires s != [] && White(s[0])
    ensures done + [s[0]] + Blanked(s[1..]) == done + Blanked(s) && Tokens(s[1..]) == Tokens(s)
  {
  }

  lemma BlankToken(done: seq<Byte>, s: seq<Byte>, n: nat)
    requires s != [] && !White(s[0]) && n == TokenLength(s)
    ensures done + (if IsExport(s[..n]) then Spaces(n) else s[..n]) + Blanked(s[n..]) == done + Blanked(s)
    ensures Count(s) == Count(s[n..]) + if IsExport(s[..n]) then 1 else 0
  {
    var token, rest := s[..n], s[n..];
    var blank := if IsExport(token) then Spaces(n) else token;
    assert Blanked(s) == blank + Blanked(rest);
    assert done + blank + Blanked(rest) == done + (blank + Blanked(rest));
    RestOf(token, Tokens(rest));
  }

  lemma RestOf(token: seq<Byte>, tokens: seq<seq<Byte>>)
    ensures Rest([token] + tokens) == (if IsExport(token) then [] else [token]) + Rest(tokens)
  {
    assert ([token] + tokens)[1..] == tokens;
  }

  /** `position` of the next whitespace, or the end. */
  method TokenEnd(directives: array<Byte>, start: nat) returns (end: nat)
    requires start < directives.Length && !White(directives[start])
    ensures start < end <= directives.Length && end - start == TokenLength(directives[start..])
  {
    end := start;
    while end < directives.Length && !White(directives[end])
      invariant start <= end <= directives.Length
      invariant end - start + TokenLength(directives[end..]) == TokenLength(directives[start..])
    {
      assert directives[end..][0] == directives[end] && directives[end..][1..] == directives[end + 1..];
      end := end + 1;
    }
    assert end < directives.Length ==> directives[end..][0] == directives[end];
    assert directives[start..][0] == directives[start];
  }

  method Fill(directives: array<Byte>, start: nat, end: nat)
    requires start <= end <= directives.Length
    modifies directives
    ensures directives[..start] == old(directives[..start]) && directives[end..] == old(directives[end..])
    ensures directives[start..end] == Spaces(end - start)
  {
    for i := start to end
      invariant forall k | 0 <= k < directives.Length ::
                  directives[k] == if start <= k < i then SPACE else old(directives[k])
    {
      directives[i] := SPACE;
    }
  }

  /** What is left reads as exactly the other tokens, in their order. */
  lemma {:induction false} TokensOfBlanked(s: seq<Byte>)
    ensures Tokens(Blanked(s)) == Rest(Tokens(s))
    decreases |s|
  {
    if s == [] {
    } else if White(s[0]) {
      TokensOfBlanked(s[1..]);
      assert Blanked(s)[1..] == Blanked(s[1..]);
    } else {
      var n := TokenLength(s);
      TokensOfBlanked(s[n..]);
      var rest := Blanked(s[n..]);
      RestOf(s[..n], Tokens(s[n..]));
      if IsExport(s[..n]) {
        TokensAfterSpaces(n, rest);
      } else {
        TokenThen(s[..n], rest);
      }
    }
  }

  lemma {:induction false} TokensAfterSpaces(n: nat, s: seq<Byte>)
    ensures Tokens(Spaces(n) + s) == Tokens(s)
  {
    if n == 0 {
      assert Spaces(0) + s == s;
    } else {
      TokensAfterSpaces(n - 1, s);
      assert (Spaces(n) + s)[1..] == Spaces(n - 1) + s;
    }
  }

  lemma TokenThen(token: seq<Byte>, s: seq<Byte>)
    requires token != [] && (forall b | b in token :: !White(b)) && (s != [] ==> White(s[0]))
    ensures Tokens(token + s) == [token] + Tokens(s)
  {
    LengthOf(token, s);
    assert (token + s)[..|token|] == token && (token + s)[|token|..] == s;
  }

  lemma {:induction false} LengthOf(token: seq<Byte>, s: seq<Byte>)
    requires (forall b | b in token :: !White(b)) && (s != [] ==> White(s[0]))
    ensures TokenLength(token + s) == |token|
  {
    if token == [] {
      assert token + s == s;
    } else {
      LengthOf(token[1..], s);
      assert (token + s)[1..] == token[1..] + s;
    }
  }

  /** A directive as the linker writes it: `-export:` or `/export:`, in any case. */
  predicate IsDirective(token: seq<Byte>) {
    |token| >= 8 && (token[0] == 45 || token[0] == 47) && SaysExport(token)
  }

  function Others(tokens: seq<seq<Byte>>): seq<seq<Byte>> {
    if tokens == [] then [] else (if IsDirective(tokens[0]) then [] else [tokens[0]]) + Others(tokens[1..])
  }

  /** Says `export:` after a first byte that is neither `-` nor `/`, or is a directive with nothing after the colon. */
  predicate Odd(token: seq<Byte>) {
    |token| >= 8 && SaysExport(token) && (if token[0] == 45 || token[0] == 47 then |token| == 8 else |token| > 8)
  }

  lemma {:induction false} RestAndOthers(tokens: seq<seq<Byte>>)
    ensures forall t :: t in Rest(tokens) <==> t in tokens && !IsExport(t)
    ensures forall t :: t in Others(tokens) <==> t in tokens && !IsDirective(t)
    ensures (forall t | t in tokens :: !Odd(t)) ==> Rest(tokens) == Others(tokens)
  {
    if tokens != [] {
      RestAndOthers(tokens[1..]);
      assert tokens == [tokens[0]] + tokens[1..];
    }
  }

  /** The tokens left are those that are no directives exactly when no token is odd. */
  lemma ExactlyDirectives(s: seq<Byte>)
    ensures Tokens(Blanked(s)) == Others(Tokens(s)) <==> forall t | t in Tokens(s) :: !Odd(t)
  {
    TokensOfBlanked(s);
    RestAndOthers(Tokens(s));
    forall t | t in Tokens(s) && Odd(t) ensures Rest(Tokens(s)) != Others(Tokens(s)) {
      assert t in Rest(Tokens(s)) <==> t !in Others(Tokens(s));
    }
  }

  /** A word that happens to read `export:` from its second byte on is lost: `Xexport:a`. */
  lemma OddToken()
    ensures var s := [88, 101, 120, 112, 111, 114, 116, 58, 97]; Tokens(s) == [s] && Odd(s) && Tokens(Blanked(s)) == []
  {
    var s: seq<Byte> := [88, 101, 120, 112, 111, 114, 116, 58, 97];
    assert s == s + [];
    TokenThen(s, []);
    TokensOfBlanked(s);
    assert Rest([s]) == Rest([s][1..]) == [];
  }
}
