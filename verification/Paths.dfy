/** Splitting a path at its slashes and joining a prefix of the parts again. */
module Paths {
  import opened Seqs

  function Split(s: string): (parts: seq<string>)
    ensures |parts| > 0
  {
    if s == "" then [""]
    else if s[0] == '/' then [""] + Split(s[1..])
    else var parts := Split(s[1..]); [[s[0]] + parts[0]] + parts[1..]
  }

  function Join(parts: seq<string>): string {
    if parts == [] then ""
    else if |parts| == 1 then parts[0]
    else parts[0] + "/" + Join(parts[1..])
  }

  /** The ends of the parts of a path: its slashes from left to right, then its end. */
  function CutsFrom(s: string, i: nat): (cuts: seq<nat>)
    requires i <= |s|
    ensures |cuts| > 0 && forall k :: 0 <= k < |cuts| ==> i <= cuts[k] <= |s|
    decreases |s| - i
  {
    if i == |s| then [i]
    else if s[i] == '/' then [i] + CutsFrom(s, i + 1)
    else CutsFrom(s, i + 1)
  }

  function Cuts(s: string): seq<nat> {
    CutsFrom(s, 0)
  }

  lemma {:induction false} CutsFromAreTheSlashes(s: string, i: nat, j: nat)
    requires i <= j <= |s|
    ensures j in CutsFrom(s, i) <==> j == |s| || s[j] == '/'
    decreases |s| - i
  {
    if i == j {
    } else {
      CutsFromAreTheSlashes(s, i + 1, j);
    }
  }

  /** The cuts of a path are exactly its slashes and its end. */
  lemma CutsAreTheSlashes(s: string, j: nat)
    ensures j in Cuts(s) <==> j == |s| || (j < |s| && s[j] == '/')
  {
    if j <= |s| {
      CutsFromAreTheSlashes(s, 0, j);
    }
  }

  lemma {:induction false} CutsAscend(s: string, i: nat, k: nat, l: nat)
    requires i <= |s| && k < l < |CutsFrom(s, i)|
    ensures CutsFrom(s, i)[k] < CutsFrom(s, i)[l]
    decreases |s| - i
  {
    if s[i] != '/' {
      CutsAscend(s, i + 1, k, l);
    } else if k > 0 {
      CutsAscend(s, i + 1, k - 1, l - 1);
    }
  }

  function SlashesFrom(s: string, i: nat): nat
    requires i <= |s|
    decreases |s| - i
  {
    if i == |s| then 0 else (if s[i] == '/' then 1 else 0) + SlashesFrom(s, i + 1)
  }

  lemma {:induction false} OneCutPerSlashAndOne(s: string, i: nat)
    requires i <= |s|
    ensures |CutsFrom(s, i)| == SlashesFrom(s, i) + 1
    decreases |s| - i
  {
    if i == |s| {
    } else {
      OneCutPerSlashAndOne(s, i + 1);
    }
  }

  lemma JoinStep(c: char, rest: seq<string>, i: nat)
    requires i < |rest|
    ensures Join(([""] + rest)[..i + 2]) == "/" + Join(rest[..i + 1])
    ensures Join(([[c] + rest[0]] + rest[1..])[..i + 1]) == [c] + Join(rest[..i + 1])
  {
    var slashed, grown := ([""] + rest)[..i + 2], ([[c] + rest[0]] + rest[1..])[..i + 1];
    assert slashed[1..] == rest[..i + 1];
    assert grown[1..] == rest[..i + 1][1..] && grown[0] == [c] + rest[..i + 1][0];
    if i > 0 {
      Associative([c], rest[0], "/" + Join(grown[1..]));
      Associative([c] + rest[0], "/", Join(grown[1..]));
      Associative(rest[0], "/", Join(grown[1..]));
    }
  }

  lemma {:induction false} OnePartPerCut(s: string, i: nat)
    requires i <= |s|
    ensures |Split(s[i..])| == |CutsFrom(s, i)|
    decreases |s| - i
  {
    if i == |s| {
    } else {
      assert s[i..][1..] == s[i + 1..];
      OnePartPerCut(s, i + 1);
    }
  }

  lemma {:induction false} JoinOfFirstPartsFrom(s: string, i: nat, k: nat)
    requires i <= |s| && k < |CutsFrom(s, i)|
    ensures |Split(s[i..])| == |CutsFrom(s, i)|
    ensures Join(Split(s[i..])[..k + 1]) == s[i..CutsFrom(s, i)[k]]
    decreases |s| - i
  {
    OnePartPerCut(s, i);
    if i == |s| {
    } else {
      assert s[i..][1..] == s[i + 1..];
      OnePartPerCut(s, i + 1);
      var rest, cuts := Split(s[i + 1..]), CutsFrom(s, i + 1);
      if s[i] == '/' {
        if k > 0 {
          JoinOfFirstPartsFrom(s, i + 1, k - 1);
          JoinStep(s[i], rest, k - 1);
          OneMoreInFront(s, i, cuts[k - 1]);
        }
      } else {
        JoinOfFirstPartsFrom(s, i + 1, k);
        JoinStep(s[i], rest, k);
        OneMoreInFront(s, i, cuts[k]);
      }
    }
  }

  lemma OneMoreInFront(s: string, i: nat, j: nat)
    requires i < j <= |s|
    ensures s[i..j] == [s[i]] + s[i + 1..j]
  {
  }

  /** Joining the first parts of a path gives the path up to the corresponding cut. */
  lemma JoinOfFirstParts(s: string, k: nat)
    requires k < |Split(s)|
    ensures |Split(s)| == |Cuts(s)|
    ensures Join(Split(s)[..k + 1]) == s[..Cuts(s)[k]]
  {
    assert s[0..] == s;
    OnePartPerCut(s, 0);
    JoinOfFirstPartsFrom(s, 0, k);
  }
}
