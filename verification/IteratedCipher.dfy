/** Ciphers that repeat a substitution layer, a mixing layer and a key addition, the last round without mixing,
    and inverse ciphers that run the rounds backwards. */
module IteratedCipher {

  datatype Layers<!S> = Layers(sub: S -> S, mix: S -> S, add: (S, S) -> S)

  /** The state after rounds 0 to i; round 0 only adds a key. */
  ghost function Rounds<S>(l: Layers<S>, s: S, w: seq<S>, i: nat): S
    requires i < |w|
  {
    if i == 0 then l.add(s, w[0])
    else
      var t := l.sub(Rounds(l, s, w, i - 1));
      l.add(if i != |w| - 1 then l.mix(t) else t, w[i])
  }

  /** The state of the inverse cipher after its passes with index |w| - 1 down to i */
  ghost function InvRounds<S>(m: Layers<S>, s: S, w: seq<S>, i: nat): S
    requires i < |w|
    decreases |w| - i
  {
    if i == |w| - 1 then m.add(s, w[i])
    else
      var t := m.add(m.sub(InvRounds(m, s, w, i + 1)), w[i]);
      if i != 0 then m.mix(t) else t
  }

  /** Round i knows only the keys up to its own. */
  lemma {:induction false} EarlierKeys<S>(l: Layers<S>, s: S, w: seq<S>, v: seq<S>, i: nat)
    requires i < |w| == |v| && w[..i + 1] == v[..i + 1]
    ensures Rounds(l, s, w, i) == Rounds(l, s, v, i)
  {
    assert w[i] == w[..i + 1][i] == v[..i + 1][i] == v[i];
    if i > 0 {
      assert w[..i] == w[..i + 1][..i] == v[..i + 1][..i] == v[..i];
      EarlierKeys(l, s, w, v, i - 1);
    }
  }

  /** The layers of m undo those of l; adding a key twice changes nothing. */
  ghost predicate Undoes<S(!new)>(m: Layers<S>, l: Layers<S>) {
    && (forall s :: m.sub(l.sub(s)) == s)
    && (forall s :: m.mix(l.mix(s)) == s)
    && (forall s, k :: m.add(l.add(s, k), k) == s)
  }

  /** Before its pass i the inverse cipher holds what the cipher held in round i just before mixing. */
  lemma {:induction false} InverseRetraces<S(!new)>(l: Layers<S>, m: Layers<S>, s: S, w: seq<S>, i: nat)
    requires Undoes(m, l)
    requires 1 <= i < |w|
    ensures InvRounds(m, Rounds(l, s, w, |w| - 1), w, i) == l.sub(Rounds(l, s, w, i - 1))
    decreases |w| - i
  {
    if i < |w| - 1 {
      InverseRetraces(l, m, s, w, i + 1);
    }
  }

  lemma InverseUndoesCipher<S(!new)>(l: Layers<S>, m: Layers<S>, s: S, w: seq<S>)
    requires Undoes(m, l) && |w| > 1
    ensures InvRounds(m, Rounds(l, s, w, |w| - 1), w, 0) == s
  {
    InverseRetraces(l, m, s, w, 1);
  }

  /** After its round i the cipher holds what the inverse cipher held in pass i just before adding the key. */
  lemma {:induction false} CipherRetraces<S(!new)>(l: Layers<S>, m: Layers<S>, s: S, w: seq<S>, i: nat)
    requires Undoes(l, m)
    requires i < |w| - 1
    ensures Rounds(l, InvRounds(m, s, w, 0), w, i) == m.sub(InvRounds(m, s, w, i + 1))
    decreases i
  {
    if i == 0 {
    } else {
      CipherRetraces(l, m, s, w, i - 1);
    }
  }

  lemma CipherUndoesInverse<S(!new)>(l: Layers<S>, m: Layers<S>, s: S, w: seq<S>)
    requires Undoes(l, m) && |w| > 1
    ensures Rounds(l, InvRounds(m, s, w, 0), w, |w| - 1) == s
  {
    CipherRetraces(l, m, s, w, |w| - 2);
  }
}
