/** Fragmentation and reassembly of messages. */
module KcpMessages {
  import opened Arithmetic
  import opened KcpState
  import opened KcpSpec

  /** Everything a sender has accepted, fragment by fragment; segment `sn` carries
      element `sn` (numbers counted without wrapping). */
  function Log(mss: int, sent: seq<Message>): seq<Frag>
    requires 0 < mss
  {
    if |sent| == 0 then [] else Log(mss, sent[..|sent| - 1]) + Fragment(mss, sent[|sent| - 1])
  }

  ghost predicate Carries(log: seq<Frag>, p: Packet) {
    0 <= p.sn < |log| && p.frg == log[p.sn].frg && p.data == log[p.sn].data
  }

  function DataOfFrags(fs: seq<Frag>): seq<byte> {
    if |fs| == 0 then [] else fs[0].data + DataOfFrags(fs[1..])
  }

  /** Fragments count down to 0, all but the last hold `mss` bytes and the last no more, and
      they concatenate to the message. */
  lemma {:induction false} FragmentShape(mss: int, m: Message)
    requires 0 < mss
    ensures forall i :: 0 <= i < |Fragment(mss, m)| ==>
              Fragment(mss, m)[i].frg == |Fragment(mss, m)| - 1 - i && |Fragment(mss, m)[i].data| <= mss
    ensures forall i :: 0 <= i < |Fragment(mss, m)| - 1 ==> |Fragment(mss, m)[i].data| == mss
    ensures DataOfFrags(Fragment(mss, m)) == m
    decreases |m|
  {
    if |m| > mss {
      var rest := Fragment(mss, m[mss..]);
      FragmentShape(mss, m[mss..]);
      assert Fragment(mss, m)[1..] == rest;
      assert m == m[..mss] + m[mss..];
    } else {
      assert Fragment(mss, m)[1..] == [];
    }
  }

  /** The count that `ikcp_send` computes by division is the number of fragments. */
  lemma {:induction false} FragmentCountExact(mss: int, m: Message)
    requires 0 < mss
    ensures |Fragment(mss, m)| == FragmentCount(mss, |m|)
    decreases |m|
  {
    if |m| <= mss {
    } else {
      FragmentCountExact(mss, m[mss..]);
      CeilStep(mss, |m|);
    }
  }

  lemma CeilStep(mss: int, len: int)
    requires 0 < mss < len
    ensures FragmentCount(mss, len) == FragmentCount(mss, len - mss) + 1
  {
    DivByAdding(len - 1, mss);
    if len - mss <= mss {
      DivModUnique(len - 1, mss, 1, len - 1 - mss);
    }
  }

  lemma DivByAdding(x: int, m: int)
    requires 0 < m
    ensures (x + m) / m == x / m + 1
  {
    DivMod(x, m);
    DivModUnique(x + m, m, x / m + 1, x % m);
  }

  lemma LogOfOneMore(mss: int, sent: seq<Message>, m: Message)
    requires 0 < mss
    ensures Log(mss, sent + [m]) == Log(mss, sent) + Fragment(mss, m)
  {
    assert (sent + [m])[..|sent|] == sent;
  }

  /** The log of a prefix is a prefix of the log. */
  lemma {:induction false} LogPrefix(mss: int, sent: seq<Message>, n: nat)
    requires 0 < mss && n <= |sent|
    ensures |Log(mss, sent[..n])| <= |Log(mss, sent)|
    ensures Log(mss, sent)[..|Log(mss, sent[..n])|] == Log(mss, sent[..n])
    decreases |sent|
  {
    if n == |sent| {
      assert sent[..n] == sent;
    } else {
      LogPrefix(mss, sent[..|sent| - 1], n);
      assert sent[..|sent| - 1][..n] == sent[..n];
    }
  }

  /** Message number `n` occupies the log right after its predecessors. */
  lemma MessageInLog(mss: int, sent: seq<Message>, n: nat)
    requires 0 < mss && n < |sent|
    ensures var c := |Log(mss, sent[..n])|;
            var fs := Fragment(mss, sent[n]);
            c + |fs| <= |Log(mss, sent)| && Log(mss, sent)[c..c + |fs|] == fs
            && |Log(mss, sent[..n + 1])| == c + |fs|
  {
    var fs := Fragment(mss, sent[n]);
    var c := |Log(mss, sent[..n])|;
    assert sent[..n + 1] == sent[..n] + [sent[n]];
    LogOfOneMore(mss, sent[..n], sent[n]);
    LogPrefix(mss, sent, n + 1);
    var log := Log(mss, sent);
    assert log[c..c + |fs|] == log[..c + |fs|][c..];
  }

  /** A queue holds the fragments `fs` at its front. */
  ghost predicate StartsWith(q: seq<Packet>, fs: seq<Frag>) {
    |fs| <= |q| && forall i :: 0 <= i < |fs| ==> q[i].frg == fs[i].frg && q[i].data == fs[i].data
  }

  lemma {:induction false} MergeStops(q: seq<Packet>, n: nat)
    requires 0 < n <= |q|
    requires forall i :: 0 <= i < n ==> (q[i].frg == 0 <==> i == n - 1)
    ensures MergeCount(q) == n
  {
    if n <= 1 {
    } else {
      forall i | 0 <= i < n - 1 ensures q[1..][i].frg == 0 <==> i == n - 2 {
        assert q[1..][i] == q[i + 1];
      }
      MergeStops(q[1..], n - 1);
    }
  }

  lemma {:induction false} SameData(q: seq<Packet>, fs: seq<Frag>)
    requires |q| == |fs| && StartsWith(q, fs)
    ensures DataOf(q) == DataOfFrags(fs)
  {
    if |q| == 0 {
    } else {
      assert StartsWith(q[1..], fs[1..]);
      SameData(q[1..], fs[1..]);
    }
  }

  /** Reassembly undoes fragmentation: a queue that starts with the fragments of `m`
      yields exactly `m`, and consumes exactly its fragments. */
  lemma Reassembles(mss: int, m: Message, q: seq<Packet>)
    requires 0 < mss && StartsWith(q, Fragment(mss, m))
    ensures MergeCount(q) == |Fragment(mss, m)|
    ensures DataOf(q[..MergeCount(q)]) == m
    ensures PeekSize(q) == |m|
  {
    var fs := Fragment(mss, m);
    FragmentShape(mss, m);
    MergeStops(q, |fs|);
    var head := q[..|fs|];
    SameData(head, fs);
    if q[0].frg == 0 {
      assert head[1..] == [];
      assert DataOf(head) == q[0].data + DataOf([]);
    }
  }

  lemma PeekIsMergedLength(q: seq<Packet>)
    requires PeekSize(q) >= 0
    ensures PeekSize(q) == |DataOf(q[..MergeCount(q)])|
  {
    if q[0].frg == 0 {
      assert q[..1][1..] == [];
    }
  }

  /** A queue of consecutive segments that begins where the log of the first messages ends
      begins with the next message. */
  lemma NextMessage(mss: int, sent: seq<Message>, got: seq<Message>, log: seq<Frag>, c: nat, q: seq<Packet>)
    requires 0 < mss && got <= sent && |q| > 0
    requires log == Log(mss, sent) && c == |Log(mss, got)|
    requires forall i :: 0 <= i < |q| ==> q[i].sn == c + i && Carries(log, q[i])
    ensures |got| < |sent|
    ensures var fs := Fragment(mss, sent[|got|]);
            && q[0].frg == |fs| - 1
            && (|fs| <= |q| ==> StartsWith(q, fs))
            && |Log(mss, got + [sent[|got|]])| == c + |fs|
  {
    hide Log;
    hide StartsWith;
    SomeLeft(mss, sent, got, q[0]);
    var m := sent[|got|];
    var fs := Fragment(mss, m);
    assert sent[..|got|] == got && sent[..|got| + 1] == got + [m];
    MessageInLog(mss, sent, |got|);
    FragmentShape(mss, m);
    QueueMatchesLog(log, fs, c, q);
  }

  lemma SomeLeft(mss: int, sent: seq<Message>, got: seq<Message>, p: Packet)
    requires 0 < mss && got <= sent && Carries(Log(mss, sent), p) && p.sn == |Log(mss, got)|
    ensures |got| < |sent|
  {
    assert |got| == |sent| ==> got == sent;
  }

  lemma QueueMatchesLog(log: seq<Frag>, fs: seq<Frag>, c: nat, q: seq<Packet>)
    requires |q| > 0 && |fs| > 0 && c + |fs| <= |log| && log[c..c + |fs|] == fs
    requires forall i :: 0 <= i < |q| ==> q[i].sn == c + i && Carries(log, q[i])
    ensures q[0].frg == fs[0].frg
    ensures |fs| <= |q| ==> StartsWith(q, fs)
  {
    forall i | 0 <= i < |q| && i < |fs| ensures q[i].frg == fs[i].frg && q[i].data == fs[i].data {
      assert log[c..c + |fs|][i] == log[q[i].sn];
    }
  }
}
