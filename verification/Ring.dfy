/** The byte ring of `queue.c`, used by one thread at a time: every operation on the two
    counters and the buffer, against the sequence of bytes between them. */
module Ring {
  import opened Arithmetic
  import opened Bytes

  /** QUEUE_DATA_SIZE. */
  const SIZE: nat := 10 * 1024 * 1024

  // ---------------------------------------------------------------- positions modulo the size

  lemma ModAdd(h: nat, j: nat, n: nat)
    requires n > 0 && h % n + j < n
    ensures (h + j) % n == h % n + j
  {
    DivMod(h, n);
    DivModUnique(h + j, n, h / n, h % n + j);
  }

  /** At the end of the buffer the position starts again at 0. */
  lemma ModWrap(h: nat, j: nat, n: nat)
    requires n > 0 && h % n + j == n
    ensures (h + j) % n == 0
  {
    DivMod(h, n);
    assert (h / n + 1) * n == h / n * n + n;
    DivModUnique(h + j, n, h / n + 1, 0);
  }

  /** Less than a whole buffer apart, two positions are different places. */
  lemma Distinct(a: nat, b: nat, n: nat)
    requires a < b < a + n
    ensures a % n != b % n
  {
    DivMod(a, n);
    DivMod(b, n);
    if a % n == b % n {
      var q := b / n - a / n;
      assert q * n == b / n * n - a / n * n;
      if q >= 1 {
        MulMonotone(1, q, n);
      } else {
        MulMonotone(q, 0, n);
      }
    }
  }

  /** The bytes from position `tail` on are `s`. */
  ghost predicate Holds(buf: seq<byte>, tail: nat, s: seq<byte>) {
    |buf| > 0 && |s| <= |buf| && forall i :: 0 <= i < |s| ==> buf[(tail + i) % |buf|] == s[i]
  }

  /** `buf` with `data` stored from index `at` on. */
  ghost predicate Stored(buf: seq<byte>, buf1: seq<byte>, at: nat, data: seq<byte>) {
    && at + |data| <= |buf| == |buf1|
    && (forall k :: 0 <= k < |data| ==> buf1[at + k] == data[k])
    && (forall k :: 0 <= k < |buf| && !(at <= k < at + |data|) ==> buf1[k] == buf[k])
  }

  /** Storing into the free part of the buffer appends. */
  lemma StoreAppends(buf: seq<byte>, buf1: seq<byte>, tail: nat, head: nat, s: seq<byte>, data: seq<byte>)
    requires Holds(buf, tail, s) && head == tail + |s| && |s| + |data| <= |buf|
    requires Stored(buf, buf1, head % |buf|, data)
    ensures Holds(buf1, tail, s + data)
  {
    var n := |buf|;
    forall i | 0 <= i < |s + data|
      ensures buf1[(tail + i) % n] == (s + data)[i]
    {
      StoreAppendsAt(buf, buf1, tail, head, s, data, i);
    }
  }

  lemma StoreAppendsAt(buf: seq<byte>, buf1: seq<byte>, tail: nat, head: nat, s: seq<byte>, data: seq<byte>, i: nat)
    requires Holds(buf, tail, s) && head == tail + |s| && |s| + |data| <= |buf| && i < |s| + |data|
    requires Stored(buf, buf1, head % |buf|, data)
    ensures buf1[(tail + i) % |buf|] == (s + data)[i]
  {
    var n := |buf|;
    if i >= |s| {
      ModAdd(head, i - |s|, n);
      assert tail + i == head + (i - |s|);
    } else {
      var p := (tail + i) % n;
      if head % n <= p < head % n + |data| {
        var k := p - head % n;
        ModAdd(head, k, n);
        Distinct(tail + i, head + k, n);
      }
    }
  }

  /** What is read from a contiguous piece of the buffer. */
  lemma LoadIs(buf: seq<byte>, tail: nat, s: seq<byte>, len: nat)
    requires Holds(buf, tail, s) && len <= |s| && tail % |buf| + len <= |buf|
    ensures buf[tail % |buf|..tail % |buf| + len] == s[..len]
  {
    forall k | 0 <= k < len
      ensures buf[tail % |buf| + k] == s[k]
    {
      ModAdd(tail, k, |buf|);
    }
  }

  lemma DropFront(buf: seq<byte>, tail: nat, s: seq<byte>, len: nat)
    requires Holds(buf, tail, s) && len <= |s|
    ensures Holds(buf, tail + len, s[len..])
  {
    forall i | 0 <= i < |s| - len
      ensures buf[(tail + len + i) % |buf|] == s[len..][i]
    {
      assert tail + len + i == tail + (len + i);
    }
  }

  /** The `len` bytes from position `head` on. */
  function Behind(buf: seq<byte>, head: nat, len: nat): (bs: seq<byte>)
    requires |buf| > 0
    ensures |bs| == len && forall i :: 0 <= i < len ==> bs[i] == buf[(head + i) % |buf|]
  {
    seq(len, i requires 0 <= i < len => buf[(head + i) % |buf|])
  }

  lemma BehindAppends(buf: seq<byte>, tail: nat, head: nat, s: seq<byte>, len: nat)
    requires Holds(buf, tail, s) && head == tail + |s| && |s| + len <= |buf|
    ensures Holds(buf, tail, s + Behind(buf, head, len))
  {
    forall i | |s| <= i < |s| + len
      ensures buf[(tail + i) % |buf|] == (s + Behind(buf, head, len))[i]
    {
      assert tail + i == head + (i - |s|);
    }
  }

  /** Storing into the free part keeps the live bytes, and is what lies behind them. */
  lemma StoreLeavesLive(buf: seq<byte>, buf1: seq<byte>, tail: nat, head: nat, s: seq<byte>, data: seq<byte>)
    requires Holds(buf, tail, s) && head == tail + |s| && |s| + |data| <= |buf|
    requires Stored(buf, buf1, head % |buf|, data)
    ensures Holds(buf1, tail, s) && Behind(buf1, head, |data|) == data
  {
    StoreAppends(buf, buf1, tail, head, s, data);
    forall i | 0 <= i < |s|
      ensures buf1[(tail + i) % |buf1|] == s[i]
    {
      assert (s + data)[i] == s[i];
    }
    forall i | 0 <= i < |data|
      ensures Behind(buf1, head, |data|)[i] == data[i]
    {
      assert head + i == tail + (|s| + i) && (s + data)[|s| + i] == data[i];
    }
  }

  // ---------------------------------------------------------------- the queue

  class DataQueue {
    const buffer: array<byte>
    var head: nat
    var tail: nat
    /** The bytes in the queue. */
    ghost var contents: seq<byte>

    ghost predicate Valid()
      reads this, buffer
    {
      buffer.Length == SIZE && head == tail + |contents| && Holds(buffer[..], tail, contents)
    }

    constructor ()
      ensures Valid() && contents == [] && tail == 0 && fresh(buffer)
    {
      buffer := new byte[SIZE](_ => 0);
      head, tail, contents := 0, 0, [];
    }

    /** `memcpy` of `data[from..from + len]` to index `at`. */
    method CopyIn(at: nat, data: seq<byte>, from: nat, len: nat)
      requires from + len <= |data| && at + len <= buffer.Length
      modifies buffer
      ensures Stored(old(buffer[..]), buffer[..], at, data[from..from + len])
    {
      forall k | 0 <= k < len {
        buffer[at + k] := data[from + k];
      }
    }

    /** One contiguous piece: copy it in, then publish it. */
    method Append(data: seq<byte>, from: nat, len: nat)
      requires Valid() && from + len <= |data| && |contents| + len <= SIZE && head % SIZE + len <= SIZE
      modifies this`head, this`contents, buffer
      ensures Valid() && head == old(head) + len && contents == old(contents) + data[from..from + len]
    {
      CopyIn(head % SIZE, data, from, len);
      StoreAppends(old(buffer[..]), buffer[..], tail, head, contents, data[from..from + len]);
      head, contents := head + len, contents + data[from..from + len];
    }

    /** `enqueue_data`. */
    method EnqueueData(data: seq<byte>) returns (ret: int)
      requires Valid()
      modifies this`head, this`contents, buffer
      ensures Valid()
      ensures |data| > SIZE ==> ret == -1
      ensures |data| <= SIZE ==> ret == if |old(contents)| + |data| <= SIZE then |data| else 0
      ensures contents == if |old(contents)| + |data| <= SIZE then old(contents) + data else old(contents)
    {
      var len := |data|;
      if len > SIZE {
        return -1;
      }
      if len <= tail + SIZE - head {
        if len <= SIZE - head % SIZE {
          Append(data, 0, len);
          assert data[0..len] == data;
        } else {
          var len1 := SIZE - head % SIZE;
          ModWrap(head, len1, SIZE);
          Append(data, 0, len1);
          Append(data, len1, len - len1);
          assert data[0..len1] + data[len1..len1 + (len - len1)] == data;
        }
        return len;
      }
      return 0;
    }

    /** One contiguous piece: copy it out, then give its space back. */
    method TakeFront(len: nat) returns (data: seq<byte>)
      requires Valid() && len <= |contents| && tail % SIZE + len <= SIZE
      modifies this`tail, this`contents
      ensures Valid() && tail == old(tail) + len
      ensures data == old(contents)[..len] && contents == old(contents)[len..]
    {
      data := buffer[tail % SIZE..tail % SIZE + len];
      LoadIs(buffer[..], tail, contents, len);
      assert data == buffer[..][tail % SIZE..tail % SIZE + len];
      DropFront(buffer[..], tail, contents, len);
      tail, contents := tail + len, contents[len..];
    }

    /** `dequeue_data`. */
    method DequeueData(len: nat) returns (ret: int, data: seq<byte>)
      requires Valid()
      modifies this`tail, this`contents
      ensures Valid()
      ensures len > SIZE ==> ret == -1
      ensures len <= SIZE ==> ret == if len <= |old(contents)| then len else 0
      ensures len <= |old(contents)| ==> data == old(contents)[..len] && contents == old(contents)[len..]
      ensures len > |old(contents)| ==> data == [] && contents == old(contents)
    {
      data := [];
      if len > SIZE {
        return -1, data;
      }
      if len <= head - tail {
        if len <= SIZE - tail % SIZE {
          data := TakeFront(len);
        } else {
          var len1 := SIZE - tail % SIZE;
          ModWrap(tail, len1, SIZE);
          data := TakeFront(len1);
          var more := TakeFront(len - len1);
          data := data + more;
        }
        return len, data;
      }
      return 0, data;
    }

    /** `read_data`: like `dequeue_data`, but nothing is taken out. */
    method ReadData(len: nat) returns (ret: int, data: seq<byte>)
      requires Valid()
      ensures len > SIZE ==> ret == -1
      ensures len <= SIZE ==> ret == if len <= |contents| then len else 0
      ensures data == if len <= |contents| then contents[..len] else []
    {
      data := [];
      if len > SIZE {
        return -1, data;
      }
      if len <= head - tail {
        if len <= SIZE - tail % SIZE {
          data := Peek(tail, contents, len);
        } else {
          var len1 := SIZE - tail % SIZE;
          ModWrap(tail, len1, SIZE);
          data := Peek(tail, contents, len1);
          DropFront(buffer[..], tail, contents, len1);
          var more := Peek(tail + len1, contents[len1..], len - len1);
          data := data + more;
        }
        return len, data;
      }
      return 0, data;
    }

    method Peek(from: nat, ghost s: seq<byte>, len: nat) returns (data: seq<byte>)
      requires buffer.Length == SIZE && Holds(buffer[..], from, s) && len <= |s| && from % SIZE + len <= SIZE
      ensures data == s[..len]
    {
      data := buffer[from % SIZE..from % SIZE + len];
      LoadIs(buffer[..], from, s, len);
      assert data == buffer[..][from % SIZE..from % SIZE + len];
    }

    /** `queue_tail_point_forward`. */
    method TailPointForward(len: nat) returns (ret: int)
      requires Valid()
      modifies this`tail, this`contents
      ensures Valid()
      ensures ret == if len > SIZE then -1 else if len <= |old(contents)| then len else 0
      ensures contents == if len <= |old(contents)| then old(contents)[len..] else old(contents)
      ensures tail == if len <= |old(contents)| then old(tail) + len else old(tail)
    {
      if len > SIZE {
        return -1;
      }
      if len <= head - tail {
        DropFront(buffer[..], tail, contents, len);
        tail, contents := tail + len, contents[len..];
        return len;
      }
      return 0;
    }

    /** `queue_head_point_forward`: whatever lies behind the write pointer becomes content. */
    method HeadPointForward(len: nat) returns (ret: int)
      requires Valid()
      modifies this`head, this`contents
      ensures Valid()
      ensures ret == if len > SIZE then -1 else if |old(contents)| + len <= SIZE then len else 0
      ensures |old(contents)| + len <= SIZE ==>
                contents == old(contents) + Behind(buffer[..], old(head), len) && head == old(head) + len
      ensures |old(contents)| + len > SIZE ==> contents == old(contents) && head == old(head)
    {
      if len > SIZE {
        return -1;
      }
      if len <= tail + SIZE - head {
        BehindAppends(buffer[..], tail, head, contents, len);
        contents := contents + Behind(buffer[..], head, len);
        head := head + len;
        return len;
      }
      return 0;
    }

    /** `queue_get_end_data_count`: what can be read through the read pointer. */
    method EndDataCount() returns (n: nat)
      requires Valid()
      ensures n <= |contents| && tail % SIZE + n <= SIZE && (|contents| > 0 ==> n > 0)
      ensures n == |contents| || tail % SIZE + n == SIZE
      ensures buffer[tail % SIZE..tail % SIZE + n] == contents[..n]
    {
      var dataCount := head - tail;
      var endDataCount := SIZE - tail % SIZE;
      n := if endDataCount < dataCount then endDataCount else dataCount;
      LoadIs(buffer[..], tail, contents, n);
      assert buffer[tail % SIZE..tail % SIZE + n] == buffer[..][tail % SIZE..tail % SIZE + n];
    }

    /** `queue_get_end_free_count`: what can be written through the write pointer. */
    method EndFreeCount() returns (n: nat)
      requires Valid()
      ensures |contents| + n <= SIZE && head % SIZE + n <= SIZE
      ensures |contents| + n == SIZE || head % SIZE + n == SIZE
      ensures n == 0 <==> |contents| == SIZE
    {
      var available := SIZE + tail - head;
      var direct := SIZE - head % SIZE;
      n := if available < direct then available else direct;
    }

    /** Filling through the write pointer, as `recv` does, and moving the head. */
    method WriteDirect(data: seq<byte>)
      requires Valid() && |contents| + |data| <= SIZE && head % SIZE + |data| <= SIZE
      modifies this`head, this`contents, buffer
      ensures Valid() && contents == old(contents) + data && head == old(head) + |data|
    {
      ghost var before := buffer[..];
      assert data[0..0 + |data|] == data;
      CopyIn(head % SIZE, data, 0, |data|);
      StoreLeavesLive(before, buffer[..], tail, head, contents, data);
      var _ := HeadPointForward(|data|);
    }
  }
}
