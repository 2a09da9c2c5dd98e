/** From tokens to commands: what of a request matters, and which tokens make the HMSET pairs. */
module Dispatch {
  import opened Bytes
  import opened Decimal
  import opened Commands

  /** Capitals: the letters a to z become the letters A to Z, everything else stays. */
  lemma Capitals(s: string, i: nat)
    requires i < |s|
    ensures |ToUpper(s)| == |s| && !('a' <= ToUpper(s)[i] <= 'z')
    ensures if 'a' <= s[i] <= 'z' then ToUpper(s)[i] as int - 'A' as int == s[i] as int - 'a' as int
            else ToUpper(s)[i] == s[i]
  {
  }

  /** Command names are case-insensitive. */
  lemma NamesIgnoreCase(s: string, s': string, args: seq<string>, now: int)
    requires ToUpper(s) == ToUpper(s') && InDomain([s] + args)
    ensures InDomain([s'] + args) && Interpret([s'] + args, now) == Interpret([s] + args, now)
  {
    hide ToUpper;
    hide NameOf;
    hide Stoi;
    var a, b := [s] + args, [s'] + args;
    assert a[1..] == b[1..] == args;
    assert |a| == |b| && forall i :: 1 <= i < |a| ==> a[i] == b[i];
    assert |a| >= 2 ==> a[2..] == b[2..];
    if NameOf(ToUpper(s)) == Some(HMSET) && |a| >= 4 {
      PairsIgnoreName(a, b);
    }
  }

  lemma {:induction false} PairsIgnoreName(a: seq<string>, b: seq<string>)
    requires |a| == |b| && |a| % 2 == 0 && forall i :: 1 <= i < |a| ==> a[i] == b[i]
    ensures PairsOf(a) == PairsOf(b)
  {
    if |a| < 4 {
    } else {
      PairsIgnoreName(a[..|a| - 2], b[..|b| - 2]);
    }
  }

  /** The first argument, in most commands the key, is taken exactly as written, case included: another one is
      another command, unless a later argument ends the request in stoi's exception. */
  lemma ArgumentsKeepCase(name: string, k: string, k': string, args: seq<string>, now: int)
    requires InDomain([name, k] + args) && InDomain([name, k'] + args)
    requires NameOf(ToUpper(name)).Some? && 2 <= MinTokens(NameOf(ToUpper(name)).value) <= 2 + |args|
    ensures Interpret([name, k] + args, now) == Interpret([name, k'] + args, now)
            <==> k == k' || Interpret([name, k] + args, now) == NotANumber
  {
    hide ToUpper;
    hide NameOf;
    hide Stoi;
    var a, b := [name, k] + args, [name, k'] + args;
    assert |a| == |b| && forall i :: 2 <= i < |a| ==> a[i] == b[i];
  }

  /** The i-th HMSET pair is the i-th field and value after the key. */
  lemma {:induction false} PairAt(tokens: seq<string>, i: nat)
    requires |tokens| % 2 == 0 && 2 * i + 3 < |tokens|
    ensures 2 * |PairsOf(tokens)| == |tokens| - 2
    ensures PairsOf(tokens)[i] == (tokens[2 * i + 2], tokens[2 * i + 3])
  {
    PairCount(tokens[..|tokens| - 2]);
    if 2 * i + 4 >= |tokens| {
    } else {
      PairAt(tokens[..|tokens| - 2], i);
    }
  }

  lemma {:induction false} PairCount(tokens: seq<string>)
    requires |tokens| % 2 == 0 && |tokens| >= 2
    ensures 2 * |PairsOf(tokens)| == |tokens| - 2
  {
    if |tokens| < 4 {
    } else {
      PairCount(tokens[..|tokens| - 2]);
    }
  }
}
