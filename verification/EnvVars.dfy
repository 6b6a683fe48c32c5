/**
  Which environment variables a shell expression mentions. Identifier
  characters are a parameter: alphanumerics and the underscore, as the program
  classifies them, and never one of the four characters of the syntax.
 */
module EnvVars {
  type Class = char -> bool

  ghost predicate Proper(ident: Class) {
    !ident('$') && !ident('{') && !ident('}') && !ident('\\')
  }

  ghost predicate AllIdent(s: string, ident: Class, from: nat, to: nat) {
    from <= to <= |s| && forall k :: from <= k < to ==> ident(s[k])
  }

  // ----- the declarative grammar

  /**
    A dollar sign that starts a variable: not escaped, and not the character
    that cuts short an unfinished `${NAME`.
   */
  ghost predicate Live(s: string, ident: Class, i: nat)
    decreases i, 0
  {
    && i < |s| && s[i] == '$'
    && (i > 0 ==> s[i - 1] != '\\')
    && !exists j: nat :: j < i && OpenBrace(s, ident, j, i)
  }

  /** `${NAME` from a live dollar sign at `i` up to position `p`. */
  ghost predicate OpenBrace(s: string, ident: Class, i: nat, p: nat)
    requires i < p
    decreases i, 1
  {
    i + 2 <= p && i + 1 < |s| && s[i + 1] == '{' && AllIdent(s, ident, i + 2, p) && Live(s, ident, i)
  }

  /** `$NAME` from a live dollar sign at `i` up to position `p`. */
  ghost predicate OpenPlain(s: string, ident: Class, i: nat, p: nat) {
    i < p && AllIdent(s, ident, i + 1, p) && Live(s, ident, i)
  }

  /** A plain variable runs as far as identifier characters go. */
  ghost predicate PlainVar(s: string, ident: Class, i: nat, k: nat) {
    OpenPlain(s, ident, i, k) && i + 1 < k && (k < |s| ==> !ident(s[k]))
  }

  ghost predicate BracedVar(s: string, ident: Class, i: nat, k: nat) {
    i + 2 < k < |s| && OpenBrace(s, ident, i, k) && s[k] == '}'
  }

  /** `name` is the variable whose last character is just before `k`. */
  ghost predicate EndsAt(s: string, ident: Class, k: nat, name: string) {
    || (exists i: nat :: PlainVar(s, ident, i, k) && name == s[i + 1..k])
    || (exists i: nat :: BracedVar(s, ident, i, k) && name == s[i + 2..k])
  }

  ghost predicate Mentions(s: string, ident: Class, name: string) {
    exists k: nat :: k <= |s| && EndsAt(s, ident, k, name)
  }

  // ----- the scanner

  /** What the scanner's state says about the part already read. */
  ghost predicate Scanned(s: string, ident: Class, p: nat, start: nat, inVar: bool, inBraces: bool, name: string) {
    && p <= |s|
    && (inBraces ==> inVar)
    && (if inVar && !inBraces then OpenPlain(s, ident, start, p) && name == s[start + 1..p]
        else forall i: nat :: !OpenPlain(s, ident, i, p))
    && (if inBraces then start < p && OpenBrace(s, ident, start, p) && name == s[start + 2..p]
        else forall i: nat :: i < p ==> !OpenBrace(s, ident, i, p))
    && (!inVar ==> name == [])
  }

  ghost predicate Found(s: string, ident: Class, p: nat, vars: set<string>) {
    forall name :: name in vars <==> exists k: nat :: k < p && k <= |s| && EndsAt(s, ident, k, name)
  }

  lemma LiveHere(s: string, ident: Class, p: nat, start: nat, inVar: bool, name: string)
    requires p < |s| && s[p] == '$' && Proper(ident) && Scanned(s, ident, p, start, inVar, false, name)
    ensures Live(s, ident, p) <==> inVar || p == 0 || s[p - 1] != '\\'
  {}

  lemma NotLiveInBraces(s: string, ident: Class, p: nat, start: nat, name: string)
    requires p < |s| && Scanned(s, ident, p, start, true, true, name)
    ensures !Live(s, ident, p)
  {}

  /** One more character keeps what is open open only if it belongs to a name. */
  lemma OpenStep(s: string, ident: Class, p: nat, q: nat)
    requires p < |s| && q == p + 1
    ensures forall i: nat :: OpenPlain(s, ident, i, q) <==>
              (OpenPlain(s, ident, i, p) && ident(s[p])) || (i == p && Live(s, ident, p))
    ensures forall i: nat :: i < p ==> (OpenBrace(s, ident, i, q) <==>
              (OpenBrace(s, ident, i, p) && ident(s[p])) || (i + 1 == p && s[p] == '{' && OpenPlain(s, ident, i, p)))
    ensures !OpenBrace(s, ident, p, q)
  {
    hide Live;
  }

  /** At most one variable is open at a position, plain or braced. */
  lemma OpenIsUnique(s: string, ident: Class, p: nat, i: nat, j: nat)
    requires Proper(ident)
    ensures OpenPlain(s, ident, i, p) && OpenPlain(s, ident, j, p) ==> i == j
    ensures i < p && j < p && OpenBrace(s, ident, i, p) && OpenBrace(s, ident, j, p) ==> i == j
    ensures i < p && OpenBrace(s, ident, i, p) ==> !OpenPlain(s, ident, j, p)
  {}

  /** The variable, if any, that ends just before `p`. */
  lemma EndsHere(s: string, ident: Class, p: nat, start: nat, inVar: bool, inBraces: bool, name: string)
    requires Proper(ident) && Scanned(s, ident, p, start, inVar, inBraces, name)
    ensures forall n :: EndsAt(s, ident, p, n) <==>
              && n == name && name != [] && inVar
              && (if inBraces then p < |s| && s[p] == '}' else p < |s| ==> !ident(s[p]))
  {
    forall i: nat ensures OpenPlain(s, ident, i, p) ==> i == start {
      OpenIsUnique(s, ident, p, i, start);
    }
    forall i: nat | i < p ensures OpenBrace(s, ident, i, p) ==> inBraces && i == start {
      OpenIsUnique(s, ident, p, i, start);
    }
    hide OpenPlain, OpenBrace;
    if inVar && !inBraces && name != [] && (p < |s| ==> !ident(s[p])) {
      assert PlainVar(s, ident, start, p);
    }
    if inBraces && name != [] && p < |s| && s[p] == '}' {
      assert BracedVar(s, ident, start, p);
    }
  }

  lemma FoundStep(s: string, ident: Class, p: nat, vars: set<string>, vars': set<string>)
    requires p <= |s| && Found(s, ident, p, vars)
    requires forall n :: n in vars' <==> n in vars || EndsAt(s, ident, p, n)
    ensures Found(s, ident, p + 1, vars')
  {
    hide EndsAt;
  }

  /** The scanner; a state in braces but outside a variable never arises. */
  method FindEnvVars(s: string, ident: Class) returns (vars: set<string>)
    requires Proper(ident)
    ensures forall name :: name in vars <==> Mentions(s, ident, name)
  {
    vars := {};
    var inVar, inBraces, varName, lastChar := false, false, "", '^';
    ghost var start: nat := 0;
    for p := 0 to |s|
      invariant lastChar == if p == 0 then '^' else s[p - 1]
      invariant Scanned(s, ident, p, start, inVar, inBraces, varName)
      invariant Found(s, ident, p, vars)
    {
      hide Live, OpenPlain, OpenBrace, EndsAt, Found, Scanned, Mentions;
      var c := s[p];
      ghost var before, name := vars, varName;
      EndsHere(s, ident, p, start, inVar, inBraces, varName);
      FlagsAgree(s, ident, p, start, inVar, inBraces, varName);
      if inBraces {
        NotLiveInBraces(s, ident, p, start, varName);
      } else if c == '$' {
        LiveHere(s, ident, p, start, inVar, varName);
      } else {
        OnlyDollarsLive(s, ident, p);
      }
      if inVar && inBraces {
        if c == '}' {
          if varName != [] {
            vars := vars + {varName};
            varName := [];
          }
          VariableEnds(s, ident, p, start, inVar, inBraces, name);
          inVar, inBraces := false, false;
        } else if ident(c) {
          NameGrows(s, ident, p, start, inBraces, varName);
          varName := varName + [c];
        } else {
          varName := [];
          VariableEnds(s, ident, p, start, inVar, inBraces, name);
          inVar, inBraces := false, false;
        }
      } else if inVar {
        if c == '$' {
          if varName != [] {
            vars := vars + {varName};
            varName := [];
          }
          start := p;
          VariableStarts(s, ident, p);
        } else if c == '{' && varName == [] {
          BraceOpens(s, ident, p, start);
          inBraces := true;
        } else if ident(c) {
          NameGrows(s, ident, p, start, inBraces, varName);
          varName := varName + [c];
        } else {
          if varName != [] {
            vars := vars + {varName};
            varName := [];
          }
          VariableEnds(s, ident, p, start, inVar, inBraces, name);
          inVar := false;
        }
      } else if !inBraces {
        if c == '$' && lastChar != '\\' {
          inVar := true;
          start := p;
          VariableStarts(s, ident, p);
        } else {
          VariableEnds(s, ident, p, start, inVar, inBraces, name);
        }
      } else {
        assert false;
      }
      FoundStep(s, ident, p, before, vars);
      lastChar := c;
    }
    EndsHere(s, ident, |s|, start, inVar, inBraces, varName);
    ghost var before := vars;
    if inVar && !inBraces && varName != [] {
      vars := vars + {varName};
    }
    FoundStep(s, ident, |s|, before, vars);
  }

  lemma FlagsAgree(s: string, ident: Class, p: nat, start: nat, inVar: bool, inBraces: bool, name: string)
    requires Scanned(s, ident, p, start, inVar, inBraces, name)
    ensures inBraces ==> inVar
    ensures !inVar ==> name == []
  {}

  lemma NameGrows(s: string, ident: Class, p: nat, start: nat, inBraces: bool, name: string)
    requires p < |s| && Proper(ident) && Scanned(s, ident, p, start, true, inBraces, name) && ident(s[p])
    ensures Scanned(s, ident, p + 1, start, true, inBraces, name + [s[p]])
  {
    OpenStep(s, ident, p, p + 1);
    OpenBounds(s, ident, start, p);
    OnlyDollarsLive(s, ident, p);
    hide Live, OpenPlain, OpenBrace;
    if inBraces {
      assert s[start + 2..p + 1] == s[start + 2..p] + [s[p]];
    } else {
      assert s[start + 1..p + 1] == s[start + 1..p] + [s[p]];
    }
  }

  lemma BraceOpens(s: string, ident: Class, p: nat, start: nat)
    requires p < |s| && Proper(ident) && Scanned(s, ident, p, start, true, false, []) && s[p] == '{'
    ensures Scanned(s, ident, p + 1, start, true, true, [])
  {
    OpenStep(s, ident, p, p + 1);
    OpenBounds(s, ident, start, p);
    OnlyDollarsLive(s, ident, p);
    hide Live, OpenPlain, OpenBrace;
    assert start + 1 == p by {
      assert |s[start + 1..p]| == 0;
    }
  }

  lemma VariableStarts(s: string, ident: Class, p: nat)
    requires Live(s, ident, p) && Proper(ident)
    ensures Scanned(s, ident, p + 1, p, true, false, [])
  {
    OpenStep(s, ident, p, p + 1);
    assert s[p + 1..p + 1] == [];
  }

  /** A character that neither continues a name nor starts a variable leaves nothing open. */
  lemma VariableEnds(s: string, ident: Class, p: nat, start: nat, inVar: bool, inBraces: bool, name: string)
    requires p < |s| && Scanned(s, ident, p, start, inVar, inBraces, name) && Proper(ident)
    requires !Live(s, ident, p) && (inVar ==> !ident(s[p])) && (inVar && !inBraces && name == [] ==> s[p] != '{')
    ensures Scanned(s, ident, p + 1, start, false, false, [])
  {
    OpenStep(s, ident, p, p + 1);
    OpenBounds(s, ident, start, p);
    hide Live, OpenPlain, OpenBrace;
    forall i: nat | OpenPlain(s, ident, i, p) ensures inVar && !inBraces && i == start {
      OpenIsUnique(s, ident, p, i, start);
    }
  }

  lemma OpenBounds(s: string, ident: Class, i: nat, p: nat)
    ensures OpenPlain(s, ident, i, p) ==> i < p <= |s| && Live(s, ident, i)
    ensures i < p && OpenBrace(s, ident, i, p) ==> i + 2 <= p <= |s|
  {}

  lemma OnlyDollarsLive(s: string, ident: Class, p: nat)
    ensures Live(s, ident, p) ==> p < |s| && s[p] == '$'
  {}

  /** A mentioned name is a non-empty run of identifier characters. */
  lemma MentionedIsIdentifier(s: string, ident: Class, name: string)
    requires Mentions(s, ident, name)
    ensures name != [] && forall i :: 0 <= i < |name| ==> ident(name[i])
  {
    var k: nat :| k <= |s| && EndsAt(s, ident, k, name);
  }
}
