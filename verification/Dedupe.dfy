/**
 * One dedupe request against the kernel (src/dedupe.c): requests move between three lists, round by round,
 * and the kernel may answer each round as it likes.
 */
module Dedupe {
  import opened Options

  const MAX_DEDUPES_PER_IOCTL := 120
  const DEDUPE_ROUND_LEN: nat := 32 * 1024 * 1024
  const EINVAL := 22

  /** `id` stands for the request's address: the same file may be asked about more than once. */
  datatype Req = Req(id: nat, file: nat, loff: nat, total: nat, unshared: nat, status: int, idx: nat)

  /** What the ioctl is asked: a source range, and the destinations' offsets. */
  datatype Request = Request(srcOffset: nat, srcLength: nat, dests: seq<(nat, nat)>)

  datatype Info = Info(bytes: nat, status: int)

  datatype Answer = Failed(errno: int) | Done(infos: seq<Info>)

  /** A kernel: any answer to the n-th call, with at most the requested bytes for each destination. */
  type Kernel = (nat, Request) -> Answer

  ghost predicate Honest(kernel: Kernel) {
    forall n, q :: kernel(n, q).Done? ==>
      && |kernel(n, q).infos| == |q.dests|
      && forall i :: 0 <= i < |q.dests| ==> kernel(n, q).infos[i].bytes <= q.srcLength
  }

  /** dedupe_shareable_len(): whole blocks, or the range itself if it is under one. */
  function Shareable(len: nat, bs: nat): (r: nat)
    requires bs > 0
    ensures r <= len && (len > 0 ==> r > 0)
  {
    if len < bs then len else
      assert len % bs < bs;
      len - len % bs
  }

  /** From a block up that is a multiple of the block, less than one short of the range. */
  lemma ShareableIsBlocks(len: nat, bs: nat)
    requires bs > 0
    ensures len < bs ==> Shareable(len, bs) == len
    ensures len >= bs ==> Shareable(len, bs) % bs == 0 && len - bs < Shareable(len, bs) <= len
  {
    if len >= bs {
      Multiple(len / bs, bs);
      assert len == (len / bs) * bs + len % bs;
    }
  }

  lemma {:induction false} Multiple(q: nat, bs: nat)
    requires bs > 0
    ensures (q * bs) % bs == 0
  {
    if q > 0 {
      Multiple(q - 1, bs);
      assert q * bs == (q - 1) * bs + bs;
      OneLess(q * bs, bs);
    }
  }

  lemma OneLess(x: nat, bs: nat)
    requires 0 < bs <= x
    ensures x % bs == (x - bs) % bs
  {
    var q, r := (x - bs) / bs, (x - bs) % bs;
    assert x == (q + 1) * bs + r;
    SameRest(x / bs, x % bs, q + 1, r, bs);
  }

  lemma SameRest(q: int, r: int, q': int, r': int, bs: nat)
    requires 0 <= r < bs && 0 <= r' < bs && q * bs + r == q' * bs + r'
    ensures r == r'
  {
    var d := q - q';
    assert d * bs == r' - r;
    AtLeast(d, bs);
    AtLeast(-d, bs);
    assert -d * bs == -(d * bs);
  }

  lemma AtLeast(d: int, bs: nat)
    ensures d >= 1 ==> d * bs >= bs
  {
  }

  // ---- Sums over the lists ----

  /** How often the request is on the list. */
  function Count(s: seq<Req>, id: nat): nat {
    if s == [] then 0 else Count(s[..|s| - 1], id) + (if s[|s| - 1].id == id then 1 else 0)
  }

  function Total(s: seq<Req>): nat {
    if s == [] then 0 else Total(s[..|s| - 1]) + s[|s| - 1].total
  }

  function Bytes(s: seq<Info>): nat {
    if s == [] then 0 else Bytes(s[..|s| - 1]) + s[|s| - 1].bytes
  }

  function SumOf(s: seq<nat>): nat {
    if s == [] then 0 else SumOf(s[..|s| - 1]) + s[|s| - 1]
  }

  lemma ReportMore(s: seq<nat>, n: nat)
    ensures SumOf(s + [n]) == SumOf(s) + n
  {
    assert (s + [n])[..|s|] == s;
  }

  lemma Append(s: seq<Req>, r: Req)
    ensures Total(s + [r]) == Total(s) + r.total
    ensures forall f :: Count(s + [r], f) == Count(s, f) + (if r.id == f then 1 else 0)
  {
    assert (s + [r])[..|s|] == s;
  }

  lemma BytesPrefix(s: seq<Info>, n: nat)
    requires n < |s|
    ensures n == 0 ==> Bytes(s[..n]) == 0
    ensures Bytes(s[..n + 1]) == Bytes(s[..n]) + s[n].bytes
  {
    assert s[..n + 1][..n] == s[..n];
  }

  lemma {:induction false} Concat(s: seq<Req>, t: seq<Req>)
    ensures Total(s + t) == Total(s) + Total(t)
    ensures forall f :: Count(s + t, f) == Count(s, f) + Count(t, f)
  {
    if t == [] {
      assert s + t == s;
    } else {
      var init, last := t[..|t| - 1], t[|t| - 1];
      Concat(s, init);
      assert s + t == (s + init) + [last] && t == init + [last];
      hide Total, Count;
      Append(s + init, last);
      Append(init, last);
    }
  }

  // ---- One round, request by request ----

  function Moved(r: Req, info: Info): Req {
    r.(loff := r.loff + info.bytes, total := r.total + info.bytes)
  }

  predicate Finished(r: Req, info: Info, origLen: nat) {
    info.status != 0 || r.total + info.bytes >= origLen
  }

  /** The first n requests that stay queued, and those that are done, in order. */
  function Stay(reqs: seq<Req>, infos: seq<Info>, origLen: nat, n: nat): seq<Req>
    requires n <= |reqs| == |infos|
  {
    if n == 0 then [] else
      var r, info := reqs[n - 1], infos[n - 1];
      Stay(reqs, infos, origLen, n - 1) + (if Finished(r, info, origLen) then [] else [Moved(r, info)])
  }

  function Leave(reqs: seq<Req>, infos: seq<Info>, origLen: nat, n: nat): seq<Req>
    requires n <= |reqs| == |infos|
  {
    if n == 0 then [] else
      var r, info := reqs[n - 1], infos[n - 1];
      Leave(reqs, infos, origLen, n - 1)
      + (if Finished(r, info, origLen) then [Moved(r, info).(status := info.status)] else [])
  }

  function MaxBytes(infos: seq<Info>, n: nat): (m: nat)
    requires n <= |infos|
    ensures forall i :: 0 <= i < n ==> infos[i].bytes <= m
    ensures m == 0 || exists i :: 0 <= i < n && infos[i].bytes == m
  {
    if n == 0 then 0 else
      var m := MaxBytes(infos, n - 1);
      if infos[n - 1].bytes > m then infos[n - 1].bytes else m
  }

  /**
   * What an answer does to its request, field by field: with a status, or with all bytes given, it leaves with
   * that status; else it stays and asks next behind what it was given.
   */
  lemma {:induction false} AnswerDoes(reqs: seq<Req>, infos: seq<Info>, origLen: nat, n: nat, i: nat)
    requires i < n <= |reqs| == |infos|
    ensures var r, given := reqs[i], infos[i].bytes;
            if infos[i].status == 0 && r.total + given < origLen then
              Req(r.id, r.file, r.loff + given, r.total + given, r.unshared, r.status, r.idx)
                in Stay(reqs, infos, origLen, n)
            else
              Req(r.id, r.file, r.loff + given, r.total + given, r.unshared, infos[i].status, r.idx)
                in Leave(reqs, infos, origLen, n)
  {
    if i < n - 1 {
      AnswerDoes(reqs, infos, origLen, n - 1, i);
    }
    hide Stay, Leave;
    OneAnswer(reqs, infos, origLen, n - 1);
  }

  /** A round loses no request, and adds exactly the bytes the kernel reported. */
  lemma RoundConserves(reqs: seq<Req>, infos: seq<Info>, origLen: nat, n: nat)
    requires n <= |reqs| == |infos|
    ensures var s, l := Stay(reqs, infos, origLen, n), Leave(reqs, infos, origLen, n);
            && (forall f :: Count(s, f) + Count(l, f) == Count(reqs[..n], f))
            && Total(s) + Total(l) == Total(reqs[..n]) + Bytes(infos[..n])
  {
    hide Count, Total, Bytes, Stay, Leave;
    forall f
      ensures Count(Stay(reqs, infos, origLen, n), f) + Count(Leave(reqs, infos, origLen, n), f) == Count(reqs[..n], f)
    {
      RoundCounts(reqs, infos, origLen, n, f);
    }
    RoundTotals(reqs, infos, origLen, n);
  }

  lemma CountOneMore(s: seq<Req>, r: Req, id: nat)
    ensures Count(s + [r], id) == Count(s, id) + (if r.id == id then 1 else 0)
  {
    assert (s + [r])[..|s|] == s;
  }

  lemma {:induction false} RoundCounts(reqs: seq<Req>, infos: seq<Info>, origLen: nat, n: nat, id: nat)
    requires n <= |reqs| == |infos|
    ensures Count(Stay(reqs, infos, origLen, n), id) + Count(Leave(reqs, infos, origLen, n), id) == Count(reqs[..n], id)
  {
    hide Count, Stay, Leave, Finished;
    if n == 0 {
      assert reqs[..0] == [];
      NoWeight();
      NoAnswers(reqs, infos, origLen);
    } else {
      RoundCounts(reqs, infos, origLen, n - 1, id);
      var r, info := reqs[n - 1], infos[n - 1];
      assert reqs[..n] == reqs[..n - 1] + [r];
      CountOneMore(reqs[..n - 1], r, id);
      var s, l := Stay(reqs, infos, origLen, n - 1), Leave(reqs, infos, origLen, n - 1);
      OneAnswer(reqs, infos, origLen, n - 1);
      if Finished(r, info, origLen) {
        CountOneMore(l, Moved(r, info).(status := info.status), id);
        assert s + [] == s;
      } else {
        CountOneMore(s, Moved(r, info), id);
        assert l + [] == l;
      }
    }
  }

  lemma TotalOneMore(s: seq<Req>, r: Req)
    ensures Total(s + [r]) == Total(s) + r.total
  {
    assert (s + [r])[..|s|] == s;
  }

  lemma BytesOneMore(infos: seq<Info>, n: nat)
    requires 0 < n <= |infos|
    ensures Bytes(infos[..n]) == Bytes(infos[..n - 1]) + infos[n - 1].bytes
  {
    assert infos[..n][..n - 1] == infos[..n - 1];
  }

  lemma {:induction false} RoundTotals(reqs: seq<Req>, infos: seq<Info>, origLen: nat, n: nat)
    requires n <= |reqs| == |infos|
    ensures Total(Stay(reqs, infos, origLen, n)) + Total(Leave(reqs, infos, origLen, n))
            == Total(reqs[..n]) + Bytes(infos[..n])
  {
    hide Total, Bytes, Stay, Leave, Finished;
    if n == 0 {
      assert reqs[..0] == [] && infos[..0] == [];
      NoWeight();
      NoInfos(infos[..0]);
      NoAnswers(reqs, infos, origLen);
    } else {
      RoundTotals(reqs, infos, origLen, n - 1);
      var r, info := reqs[n - 1], infos[n - 1];
      assert reqs[..n] == reqs[..n - 1] + [r];
      TotalOneMore(reqs[..n - 1], r);
      BytesOneMore(infos, n);
      var s, l := Stay(reqs, infos, origLen, n - 1), Leave(reqs, infos, origLen, n - 1);
      OneAnswer(reqs, infos, origLen, n - 1);
      if Finished(r, info, origLen) {
        TotalOneMore(l, Moved(r, info).(status := info.status));
        assert s + [] == s;
      } else {
        TotalOneMore(s, Moved(r, info));
        assert l + [] == l;
      }
    }
  }

  lemma {:induction false} RoundKeeps(reqs: seq<Req>, infos: seq<Info>, origLen: nat, n: nat)
    requires n <= |reqs| == |infos|
    ensures |Stay(reqs, infos, origLen, n)| + |Leave(reqs, infos, origLen, n)| == n
  {
    if n > 0 {
      RoundKeeps(reqs, infos, origLen, n - 1);
    }
  }

  lemma NoAnswers(reqs: seq<Req>, infos: seq<Info>, origLen: nat)
    requires |reqs| == |infos|
    ensures Stay(reqs, infos, origLen, 0) == Leave(reqs, infos, origLen, 0) == [] && MaxBytes(infos, 0) == 0
  {
  }

  lemma OneAnswer(reqs: seq<Req>, infos: seq<Info>, origLen: nat, i: nat)
    requires i < |reqs| == |infos|
    ensures Stay(reqs, infos, origLen, i + 1)
            == Stay(reqs, infos, origLen, i)
               + (if Finished(reqs[i], infos[i], origLen) then [] else [Moved(reqs[i], infos[i])])
    ensures Leave(reqs, infos, origLen, i + 1)
            == Leave(reqs, infos, origLen, i)
               + (if Finished(reqs[i], infos[i], origLen) then [Moved(reqs[i], infos[i]).(status := infos[i].status)]
                  else [])
    ensures MaxBytes(infos, i + 1) == if infos[i].bytes > MaxBytes(infos, i) then infos[i].bytes else MaxBytes(infos, i)
  {
  }

  /** The requests of one round: everything queued, numbered in order. */
  function Numbered(reqs: seq<Req>, n: nat): (r: seq<Req>)
    requires n <= |reqs|
    ensures |r| == n && forall i :: 0 <= i < n ==> r[i] == reqs[i].(idx := i)
  {
    if n == 0 then [] else Numbered(reqs, n - 1) + [reqs[n - 1].(idx := n - 1)]
  }

  /** The requests of a failed round. */
  function AllFailed(reqs: seq<Req>, errno: int, n: nat): (r: seq<Req>)
    requires n <= |reqs|
    ensures |r| == n && forall i :: 0 <= i < n ==> r[i] == reqs[i].(status := -errno)
  {
    if n == 0 then [] else AllFailed(reqs, errno, n - 1) + [reqs[n - 1].(status := -errno)]
  }

  /** Lists that differ only in numbers or statuses weigh the same. */
  lemma {:induction false} SameWeight(s: seq<Req>, t: seq<Req>)
    requires |s| == |t| && forall i :: 0 <= i < |s| ==> s[i].id == t[i].id && s[i].total == t[i].total
    ensures Total(s) == Total(t) && forall f :: Count(s, f) == Count(t, f)
  {
    if s != [] {
      SameWeight(s[..|s| - 1], t[..|t| - 1]);
    }
  }

  /** The lists as they are after a round, with those done before. */
  lemma RoundWeighs(reqs: seq<Req>, before: seq<Req>, infos: seq<Info>, origLen: nat)
    requires |reqs| == |infos|
    ensures var s, l := Stay(reqs, infos, origLen, |infos|), before + Leave(reqs, infos, origLen, |infos|);
            && |s| + |l| == |reqs| + |before| == |s + l|
            && Total(s) + Total(l) == Total(reqs) + Total(before) + Bytes(infos) && Total(s + l) == Total(s) + Total(l)
            && (forall f :: Count(s, f) + Count(l, f) == Count(reqs, f) + Count(before, f))
            && (forall f :: Count(s + l, f) == Count(s, f) + Count(l, f))
  {
    hide Count, Total, Bytes, Stay, Leave;
    var n := |infos|;
    var stay, leave := Stay(reqs, infos, origLen, n), Leave(reqs, infos, origLen, n);
    RoundConserves(reqs, infos, origLen, n);
    RoundKeeps(reqs, infos, origLen, n);
    assert reqs[..n] == reqs && infos[..n] == infos;
    Concat(before, leave);
    Concat(stay, before + leave);
  }

  /** What every request keeps: it is as far into its file as into the work, and within the length. */
  ghost predicate Within(r: Req, starts: map<nat, nat>, origLen: nat, len: nat) {
    r.id in starts && r.loff == starts[r.id] + r.total && r.total + len <= origLen
  }

  ghost predicate AllWithin(s: seq<Req>, starts: map<nat, nat>, origLen: nat, len: nat) {
    forall i :: 0 <= i < |s| ==> Within(s[i], starts, origLen, len)
  }

  lemma {:induction false} RoundWithin(reqs: seq<Req>, infos: seq<Info>, starts: map<nat, nat>, origLen: nat, len: nat,
                                            n: nat)
    requires n <= |reqs| == |infos| && AllWithin(reqs, starts, origLen, len)
    requires MaxBytes(infos, |infos|) <= len
    ensures var left := len - MaxBytes(infos, |infos|);
            && AllWithin(Stay(reqs, infos, origLen, n), starts, origLen, left)
            && AllWithin(Leave(reqs, infos, origLen, n), starts, origLen, left)
  {
    if n > 0 {
      RoundWithin(reqs, infos, starts, origLen, len, n - 1);
      assert infos[n - 1].bytes <= MaxBytes(infos, |infos|);
    }
  }

  // ---- In step with the source ----

  /** The request's next range begins as far into its file as the source's does into the work. */
  predicate InStep(r: Req, origLen: nat, len: nat) {
    r.total + len == origLen
  }

  /** The open requests out of step are those in `short`. */
  ghost predicate Steps(open: seq<Req>, short: set<nat>, origLen: nat, len: nat) {
    forall i :: 0 <= i < |open| ==> (InStep(open[i], origLen, len) <==> open[i].id !in short)
  }

  /** One of those that is done was not given all its bytes. */
  ghost predicate Behind(done: seq<Req>, short: set<nat>, origLen: nat, len: nat) {
    forall i :: 0 <= i < |done| && done[i].id in short ==> done[i].total + len < origLen
  }

  /** The requests of a round that were given less than the most anyone was. */
  function ShortIds(reqs: seq<Req>, infos: seq<Info>): set<nat>
    requires |reqs| == |infos|
  {
    set i | 0 <= i < |reqs| && infos[i].bytes < MaxBytes(infos, |infos|) :: reqs[i].id
  }

  ghost predicate Distinct(s: seq<Req>) {
    forall i, k :: 0 <= i < |s| && 0 <= k < |s| && s[i].id == s[k].id ==> i == k
  }

  lemma ShortExactly(reqs: seq<Req>, infos: seq<Info>, i: nat)
    requires i < |reqs| == |infos| && Distinct(reqs)
    ensures reqs[i].id in ShortIds(reqs, infos) <==> infos[i].bytes < MaxBytes(infos, |infos|)
  {
  }

  /** After a round a request is in step exactly if it was, and was given the most anyone was. */
  lemma {:induction false} RequestSteps(reqs: seq<Req>, infos: seq<Info>, starts: map<nat, nat>, short: set<nat>,
                                        origLen: nat, len: nat, i: nat)
    requires i < |reqs| == |infos| && Distinct(reqs) && MaxBytes(infos, |infos|) <= len
    requires AllWithin(reqs, starts, origLen, len) && Steps(reqs, short, origLen, len)
    ensures var left, r := len - MaxBytes(infos, |infos|), Moved(reqs[i], infos[i]);
            && r.total + left <= origLen
            && (InStep(r, origLen, left) <==> r.id !in short + ShortIds(reqs, infos))
  {
    ShortExactly(reqs, infos, i);
    assert Within(reqs[i], starts, origLen, len);
    assert InStep(reqs[i], origLen, len) <==> reqs[i].id !in short;
    hide Steps, AllWithin, Distinct, ShortIds;
  }

  lemma {:induction false} RoundSteps(reqs: seq<Req>, infos: seq<Info>, starts: map<nat, nat>, short: set<nat>,
                                      origLen: nat, len: nat, n: nat)
    requires n <= |reqs| == |infos| && Distinct(reqs) && MaxBytes(infos, |infos|) <= len
    requires AllWithin(reqs, starts, origLen, len) && Steps(reqs, short, origLen, len)
    ensures var left, short' := len - MaxBytes(infos, |infos|), short + ShortIds(reqs, infos);
            && Steps(Stay(reqs, infos, origLen, n), short', origLen, left)
            && Behind(Leave(reqs, infos, origLen, n), short', origLen, left)
  {
    hide Distinct, ShortIds, AllWithin, MaxBytes, Finished;
    if n > 0 {
      RoundSteps(reqs, infos, starts, short, origLen, len, n - 1);
      RequestSteps(reqs, infos, starts, short, origLen, len, n - 1);
    }
  }

  /** Open requests that are given up or fail are behind if they were short. */
  lemma StepsBehind(open: seq<Req>, done: seq<Req>, starts: map<nat, nat>, short: set<nat>, origLen: nat, len: nat)
    requires Steps(open, short, origLen, len) && AllWithin(open, starts, origLen, len)
    requires |done| == |open|
    requires forall i :: 0 <= i < |open| ==> done[i].id == open[i].id && done[i].total == open[i].total
    ensures Behind(done, short, origLen, len)
  {
    forall i | 0 <= i < |done| && done[i].id in short
      ensures done[i].total + len < origLen
    {
      assert Within(open[i], starts, origLen, len);
      assert !InStep(open[i], origLen, len);
    }
  }

  lemma BothBehind(s: seq<Req>, t: seq<Req>, short: set<nat>, origLen: nat, len: nat)
    requires Behind(s, short, origLen, len) && Behind(t, short, origLen, len)
    ensures Behind(s + t, short, origLen, len)
  {
  }

  /** What is done stays as far behind, and requests of a later round are others. */
  lemma StillBehind(done: seq<Req>, short: set<nat>, more: set<nat>, origLen: nat, len: nat, left: nat)
    requires Behind(done, short, origLen, len) && left <= len
    requires forall i :: 0 <= i < |done| ==> done[i].id !in more
    ensures Behind(done, short + more, origLen, left)
  {
  }

  lemma ShortOnes(reqs: seq<Req>, done: seq<Req>, infos: seq<Info>, starts: map<nat, nat>, origLen: nat, len: nat)
    requires |reqs| == |infos| && AllWithin(reqs, starts, origLen, len)
    requires forall f :: Count(reqs, f) + Count(done, f) <= 1
    ensures Distinct(reqs) && ShortIds(reqs, infos) <= starts.Keys
    ensures forall i :: 0 <= i < |done| ==> done[i].id !in ShortIds(reqs, infos)
  {
    hide Count, MaxBytes;
    Apart(reqs, done);
    forall i | 0 <= i < |reqs|
      ensures reqs[i].id in starts
    {
      assert Within(reqs[i], starts, origLen, len);
    }
  }

  /** What the three lists keep. */
  ghost predicate ListsOk(queued: seq<Req>, inProgress: seq<Req>, completed: seq<Req>, starts: map<nat, nat>,
                          short: set<nat>, origLen: nat, len: nat) {
    && AllWithin(queued, starts, origLen, len) && AllWithin(inProgress, starts, origLen, len)
    && AllWithin(completed, starts, origLen, len)
    && Steps(queued, short, origLen, len) && Steps(inProgress, short, origLen, len)
    && Behind(completed, short, origLen, len) && short <= starts.Keys
  }

  /** What the lists keep through a round. */
  lemma RoundLists(reqs: seq<Req>, before: seq<Req>, infos: seq<Info>, starts: map<nat, nat>, short: set<nat>,
                   origLen: nat, len: nat)
    requires |reqs| == |infos| && MaxBytes(infos, |infos|) <= len
    requires ListsOk([], reqs, before, starts, short, origLen, len)
    requires forall f :: Count(reqs, f) + Count(before, f) <= 1
    ensures var s, l := Stay(reqs, infos, origLen, |infos|), before + Leave(reqs, infos, origLen, |infos|);
            var left, short' := len - MaxBytes(infos, |infos|), short + ShortIds(reqs, infos);
            && ListsOk(s, [], l, starts, short', origLen, left)
            && ListsOk([], [], s + l, starts, short', origLen, left)
  {
    hide Steps, Behind, AllWithin, ShortIds, Distinct, Count, MaxBytes, Stay, Leave;
    var n := |infos|;
    var stay, leave := Stay(reqs, infos, origLen, n), Leave(reqs, infos, origLen, n);
    var left, short' := len - MaxBytes(infos, n), short + ShortIds(reqs, infos);
    RoundWithin(reqs, infos, starts, origLen, len, n);
    StillWithin(before, starts, origLen, len, left);
    BothWithin(before, leave, starts, origLen, left);
    BothWithin(stay, before + leave, starts, origLen, left);
    ShortOnes(reqs, before, infos, starts, origLen, len);
    RoundSteps(reqs, infos, starts, short, origLen, len, n);
    StillBehind(before, short, ShortIds(reqs, infos), origLen, len, left);
    StepsBehind(stay, stay, starts, short', origLen, left);
    BothBehind(before, leave, short', origLen, left);
    BothBehind(stay, before + leave, short', origLen, left);
    NothingWithin(starts, origLen, left);
    NothingOpen(short', origLen, left);
  }

  /** Numbering the requests of a round changes nothing of that. */
  lemma ListsSent(q: seq<Req>, p: seq<Req>, c: seq<Req>, starts: map<nat, nat>, short: set<nat>, origLen: nat, len: nat)
    requires ListsOk(q, [], c, starts, short, origLen, len) && |p| == |q|
    requires forall i :: 0 <= i < |q| ==> p[i].id == q[i].id && p[i].total == q[i].total && p[i].loff == q[i].loff
    ensures ListsOk([], p, c, starts, short, origLen, len)
  {
    forall i | 0 <= i < |p|
      ensures Within(p[i], starts, origLen, len)
    {
      assert Within(q[i], starts, origLen, len);
    }
    SameSteps(q, p, short, origLen, len);
  }

  /** Nor does ending it, given up or failed. */
  lemma ListsEnded(q: seq<Req>, q': seq<Req>, c: seq<Req>, starts: map<nat, nat>, short: set<nat>, origLen: nat,
                   len: nat)
    requires ListsOk(q, [], c, starts, short, origLen, len) && |q'| == |q|
    requires forall i :: 0 <= i < |q| ==> q'[i].id == q[i].id && q'[i].total == q[i].total && q'[i].loff == q[i].loff
    ensures ListsOk([], [], c + q', starts, short, origLen, len) && ListsOk([], [], q' + c, starts, short, origLen, len)
  {
    forall i | 0 <= i < |q'|
      ensures Within(q'[i], starts, origLen, len)
    {
      assert Within(q[i], starts, origLen, len);
    }
    StepsBehind(q, q', starts, short, origLen, len);
    BothBehind(c, q', short, origLen, len);
    BothBehind(q', c, short, origLen, len);
  }

  lemma ListsFailed(q: seq<Req>, q': seq<Req>, p: seq<Req>, p': seq<Req>, c: seq<Req>, starts: map<nat, nat>,
                    short: set<nat>, origLen: nat, len: nat)
    requires ListsOk(q, p, c, starts, short, origLen, len) && |q'| == |q| && |p'| == |p|
    requires forall i :: 0 <= i < |q| ==> q'[i].id == q[i].id && q'[i].total == q[i].total && q'[i].loff == q[i].loff
    requires forall i :: 0 <= i < |p| ==> p'[i].id == p[i].id && p'[i].total == p[i].total && p'[i].loff == p[i].loff
    ensures ListsOk([], [], c + p' + q', starts, short, origLen, len)
  {
    hide AllWithin, Steps, Behind;
    NothingOpen(short, origLen, len);
    NothingWithin(starts, origLen, len);
    ListsEnded(p, p', c, starts, short, origLen, len);
    ListsEnded(q, q', c + p', starts, short, origLen, len);
  }

  /** Who has all its bytes was given the most by every round. */
  lemma DoneWasGiven(completed: seq<Req>, starts: map<nat, nat>, short: set<nat>, origLen: nat, len: nat)
    requires ListsOk([], [], completed, starts, short, origLen, len)
    ensures forall i :: 0 <= i < |completed| && completed[i].total >= origLen ==> completed[i].id !in short
  {
  }

  lemma ListsClamped(q: seq<Req>, starts: map<nat, nat>, short: set<nat>, origLen: nat, left: nat)
    requires ListsOk(q, [], [], starts, short, origLen, origLen)
    requires forall i :: 0 <= i < |q| ==> q[i].total == 0
    ensures ListsOk(q, [], [], starts, short, left, left)
  {
    forall i | 0 <= i < |q|
      ensures Within(q[i], starts, left, left) && InStep(q[i], left, left) && q[i].id !in short
    {
      assert Within(q[i], starts, origLen, origLen) && InStep(q[i], origLen, origLen);
    }
  }

  lemma ListsAdded(q: seq<Req>, r: Req, starts: map<nat, nat>, short: set<nat>, origLen: nat)
    requires ListsOk(q, [], [], starts, short, origLen, origLen) && r.id !in starts && r.total == 0
    ensures ListsOk(q + [r], [], [], starts[r.id := r.loff], short, origLen, origLen)
    ensures forall i :: 0 <= i < |q| ==> q[i].id != r.id
  {
    forall i | 0 <= i < |q|
      ensures Within(q[i], starts[r.id := r.loff], origLen, origLen) && q[i].id != r.id
    {
      assert Within(q[i], starts, origLen, origLen);
    }
    assert InStep(r, origLen, origLen);
  }

  lemma SameSteps(s: seq<Req>, t: seq<Req>, short: set<nat>, origLen: nat, len: nat)
    requires Steps(s, short, origLen, len)
    requires |t| == |s| && forall i :: 0 <= i < |s| ==> t[i].id == s[i].id && t[i].total == s[i].total
    ensures Steps(t, short, origLen, len)
  {
    forall i | 0 <= i < |t|
      ensures InStep(t[i], origLen, len) <==> t[i].id !in short
    {
      assert InStep(s[i], origLen, len) <==> s[i].id !in short;
    }
  }

  lemma NothingOpen(short: set<nat>, origLen: nat, len: nat)
    ensures Steps([], short, origLen, len) && Behind([], short, origLen, len)
  {
  }

  lemma {:induction false} CountedOnce(s: seq<Req>, i: nat)
    requires i < |s|
    ensures Count(s, s[i].id) >= 1
  {
    if i < |s| - 1 {
      CountedOnce(s[..|s| - 1], i);
    }
  }

  lemma {:induction false} CountedTwice(s: seq<Req>, i: nat, k: nat)
    requires i < k < |s| && s[i].id == s[k].id
    ensures Count(s, s[i].id) >= 2
  {
    if k < |s| - 1 {
      CountedTwice(s[..|s| - 1], i, k);
    } else {
      CountedOnce(s[..|s| - 1], i);
    }
  }

  lemma {:induction false} NotCounted(s: seq<Req>, id: nat)
    requires forall i :: 0 <= i < |s| ==> s[i].id != id
    ensures Count(s, id) == 0
  {
    if s != [] {
      NotCounted(s[..|s| - 1], id);
    }
  }

  /** Requests counted once at most are distinct, on a list and between two. */
  lemma Apart(s: seq<Req>, t: seq<Req>)
    requires forall f :: Count(s, f) + Count(t, f) <= 1
    ensures Distinct(s)
    ensures forall i, k :: 0 <= i < |s| && 0 <= k < |t| ==> s[i].id != t[k].id
  {
    hide Count;
    forall i, k | 0 <= i < k < |s|
      ensures s[i].id != s[k].id
    {
      if s[i].id == s[k].id {
        CountedTwice(s, i, k);
      }
    }
    forall i, k | 0 <= i < |s| && 0 <= k < |t|
      ensures s[i].id != t[k].id
    {
      CountedOnce(s, i);
      CountedOnce(t, k);
    }
  }

  /** A kernel that gives every destination all that is asked. */
  ghost predicate Generous(kernel: Kernel) {
    forall n, q :: kernel(n, q).Done? && |kernel(n, q).infos| == |q.dests|
                   && forall i :: 0 <= i < |q.dests| ==> kernel(n, q).infos[i] == Info(q.srcLength, 0)
  }

  /** Every call so far was answered. */
  ghost predicate NoneFailed(kernel: Kernel, issued: seq<Request>) {
    forall i :: 0 <= i < |issued| ==> kernel(i, issued[i]).Done?
  }

  lemma NothingAsked(kernel: Kernel, issued: seq<Request>)
    requires issued == []
    ensures NoneFailed(kernel, issued)
  {
  }

  /** One call more, or two of which the first was answered. */
  lemma AskedMore(kernel: Kernel, before: seq<Request>, issued: seq<Request>, last: nat)
    requires before <= issued && |before| <= last == |issued| - 1
    requires forall i :: |before| <= i < last ==> kernel(i, issued[i]).Done?
    ensures NoneFailed(kernel, before) ==> (NoneFailed(kernel, issued) <==> kernel(last, issued[last]).Done?)
  {
  }

  /** Nothing has gone wrong so far: who is queued is in step, and who is done has all its bytes. */
  ghost predicate AllPlain(queued: seq<Req>, completed: seq<Req>, origLen: nat, len: nat) {
    && (forall i :: 0 <= i < |queued| ==> queued[i].status == 0 && InStep(queued[i], origLen, len))
    && (forall i :: 0 <= i < |completed| ==> completed[i].status == 0 && completed[i].total == origLen)
  }

  lemma PlainAtFirst(queued: seq<Req>, completed: seq<Req>, origLen: nat)
    requires completed == [] && forall i :: 0 <= i < |queued| ==> queued[i].status == 0 && queued[i].total == 0
    ensures AllPlain(queued, completed, origLen, origLen)
  {
  }

  lemma PlainAtLast(queued: seq<Req>, completed: seq<Req>, origLen: nat, len: nat)
    requires AllPlain(queued, completed, origLen, len)
    ensures forall i :: 0 <= i < |completed| ==> completed[i].status == 0 && completed[i].total == origLen
  {
  }

  lemma GenerousFirst(kernel: Kernel, call: nat, q: Request)
    requires Generous(kernel) && |q.dests| > 0
    ensures kernel(call, q).Done? && |kernel(call, q).infos| == |q.dests| && kernel(call, q).infos[0].status != -EINVAL
  {
  }

  /** Then everybody goes on in step, or everybody is done. */
  lemma GenerousRound(kernel: Kernel, call: nat, same: Request, queued: seq<Req>, before: seq<Req>, origLen: nat,
                      len: nat)
    requires Generous(kernel) && 0 < |queued| == |same.dests| && same.srcLength <= len
    requires AllPlain(queued, before, origLen, len) && (len > 0 ==> same.srcLength > 0)
    ensures kernel(call, same).Done? && |kernel(call, same).infos| == |queued|
    ensures var infos, reqs := kernel(call, same).infos, Numbered(queued, |queued|);
            var stay, leave := Stay(reqs, infos, origLen, |infos|), Leave(reqs, infos, origLen, |infos|);
            && MaxBytes(infos, |infos|) == same.srcLength && (same.srcLength > 0 ==> Bytes(infos) > 0)
            && AllPlain(stay, before + leave, origLen, len - same.srcLength)
            && (same.srcLength == 0 ==> stay == [])
  {
    var infos, reqs := kernel(call, same).infos, Numbered(queued, |queued|);
    GenerousPart(reqs, infos, same.srcLength, origLen, len, |reqs|);
    NoBytes(infos);
    assert infos[0].bytes <= MaxBytes(infos, |infos|);
  }

  lemma {:induction false} GenerousPart(reqs: seq<Req>, infos: seq<Info>, given: nat, origLen: nat, len: nat, n: nat)
    requires n <= |reqs| == |infos| && given <= len && forall i :: 0 <= i < |infos| ==> infos[i] == Info(given, 0)
    requires forall i :: 0 <= i < |reqs| ==> reqs[i].status == 0 && InStep(reqs[i], origLen, len)
    ensures var stay, leave := Stay(reqs, infos, origLen, n), Leave(reqs, infos, origLen, n);
            && (forall i :: 0 <= i < |stay| ==> stay[i].status == 0 && InStep(stay[i], origLen, len - given))
            && (forall i :: 0 <= i < |leave| ==> leave[i].status == 0 && leave[i].total == origLen)
            && (given == len ==> stay == [])
  {
    if n > 0 {
      GenerousPart(reqs, infos, given, origLen, len, n - 1);
      var r := reqs[n - 1];
      assert r.status == 0 && InStep(r, origLen, len) && infos[n - 1] == Info(given, 0);
      hide Stay, Leave;
      OneAnswer(reqs, infos, origLen, n - 1);
    } else {
      NoAnswers(reqs, infos, origLen);
    }
  }

  function Given(q: Request, i: nat): Info {
    if i == 0 then Info(q.srcLength / 2, 0) else Info(0, 0)
  }

  /** A kernel that gives the first destination half of what is asked, and the others nothing. */
  function Halving(n: nat, q: Request): Answer {
    Done(seq(|q.dests|, i requires 0 <= i < |q.dests| => Given(q, i)))
  }

  lemma HalvingIsHonest()
    ensures Honest(Halving)
  {
  }

  /**
   * Two destinations against that kernel. Both go on: the source and the first are 4096 bytes further, the
   * second is not.
   */
  lemma OutOfStep() returns (reqs: seq<Req>, infos: seq<Info>)
    ensures Honest(Halving) && Halving(0, Request(0, 8192, [(1, 0), (2, 0)])) == Done(infos)
    ensures reqs == [Req(0, 1, 0, 0, 0, 0, 0), Req(1, 2, 0, 0, 0, 0, 1)]
    ensures |infos| == 2 && MaxBytes(infos, 2) == 4096
    ensures Stay(reqs, infos, 8192, 2) == [Req(0, 1, 4096, 4096, 0, 0, 0), Req(1, 2, 0, 0, 0, 0, 1)]
    ensures InStep(Stay(reqs, infos, 8192, 2)[0], 8192, 4096) && !InStep(Stay(reqs, infos, 8192, 2)[1], 8192, 4096)
  {
    HalvingIsHonest();
    hide Honest, Stay, Leave, MaxBytes;
    reqs := [Req(0, 1, 0, 0, 0, 0, 0), Req(1, 2, 0, 0, 0, 0, 1)];
    infos := Halving(0, Request(0, 8192, [(1, 0), (2, 0)])).infos;
    assert infos[0] == Info(4096, 0) && infos[1] == Info(0, 0);
    NoAnswers(reqs, infos, 8192);
    OneAnswer(reqs, infos, 8192, 0);
    OneAnswer(reqs, infos, 8192, 1);
  }

  /** Those that left are finished for a reason. */
  ghost predicate AllFinished(s: seq<Req>, origLen: nat) {
    forall i :: 0 <= i < |s| ==> s[i].status != 0 || s[i].total >= origLen
  }

  lemma BothWithin(s: seq<Req>, t: seq<Req>, starts: map<nat, nat>, origLen: nat, len: nat)
    requires AllWithin(s, starts, origLen, len) && AllWithin(t, starts, origLen, len)
    ensures AllWithin(s + t, starts, origLen, len)
  {
  }

  lemma StillWithin(s: seq<Req>, starts: map<nat, nat>, origLen: nat, len: nat, left: nat)
    requires AllWithin(s, starts, origLen, len) && left <= len
    ensures AllWithin(s, starts, origLen, left)
  {
  }

  lemma NothingWithin(starts: map<nat, nat>, origLen: nat, len: nat)
    ensures AllWithin([], starts, origLen, len)
  {
  }

  lemma BothFinished(s: seq<Req>, t: seq<Req>, origLen: nat)
    requires AllFinished(s, origLen) && AllFinished(t, origLen)
    ensures AllFinished(s + t, origLen)
  {
  }

  lemma {:induction false} LeftFinished(reqs: seq<Req>, infos: seq<Info>, origLen: nat, n: nat)
    requires n <= |reqs| == |infos|
    ensures AllFinished(Leave(reqs, infos, origLen, n), origLen)
  {
    if n > 0 {
      LeftFinished(reqs, infos, origLen, n - 1);
    }
  }

  lemma {:induction false} NoBytes(infos: seq<Info>)
    ensures Bytes(infos) == 0 <==> MaxBytes(infos, |infos|) == 0
  {
    if infos != [] {
      var init := infos[..|infos| - 1];
      NoBytes(init);
      MaxOfPrefix(infos, |infos| - 1);
    }
  }

  lemma {:induction false} MaxOfPrefix(infos: seq<Info>, n: nat)
    requires n <= |infos|
    ensures MaxBytes(infos[..n], n) == MaxBytes(infos, n)
    decreases n
  {
    if n > 0 {
      MaxOfPrefix(infos, n - 1);
      MaxOfPrefix(infos[..n], n - 1);
      assert infos[..n][..n - 1] == infos[..n - 1];
    }
  }

  class DedupeCtxt {
    var origLen: nat
    var origFileOff: nat
    var len: nat
    var fileOff: nat
    var maxQueable: nat
    var numQueued: nat
    var aligned: bool
    var queued: seq<Req>
    var inProgress: seq<Req>
    var completed: seq<Req>
    var reported: seq<nat>             // what the progress callback has been told, round by round
    ghost var starts: map<nat, nat>    // where each destination began
    ghost var issued: seq<Request>     // every ioctl so far
    ghost var short: set<nat>          // the requests some round gave less than the most it gave to anyone

    /** new_dedupe_ctxt() */
    constructor (maxExtents: nat, loff: nat, elen: nat)
      requires maxExtents > 0
      ensures Valid() && origLen == len == elen && origFileOff == fileOff == loff && !aligned
      ensures queued == inProgress == completed == [] && reported == [] && issued == []
      ensures starts == map[] && short == {}
      ensures maxQueable == (if maxExtents > MAX_DEDUPES_PER_IOCTL then MAX_DEDUPES_PER_IOCTL else maxExtents) - 1
      ensures numQueued == 0
    {
      maxQueable := (if maxExtents > MAX_DEDUPES_PER_IOCTL then MAX_DEDUPES_PER_IOCTL else maxExtents) - 1;
      len, origLen := elen, elen;
      fileOff, origFileOff := loff, loff;
      numQueued, aligned, reported := 0, false, [];
      queued, inProgress, completed := [], [], [];
      starts, issued, short := map[], [], {};
      new;
      NoWeight();
    }

    ghost predicate Valid()
      reads this
    {
      && len <= origLen && fileOff == origFileOff + (origLen - len)
      && numQueued >= |queued|
      && |queued| + |inProgress| + |completed| <= maxQueable
      && (forall id :: id in starts ==> id < |queued| + |inProgress| + |completed|)
      && ListsOk(queued, inProgress, completed, starts, short, origLen, len)
      && Total(queued) + Total(inProgress) + Total(completed) == SumOf(reported)
      && (forall id :: Requests(id) <= 1)
    }

    /**
     * A queued request's next range and the source's are as far into the work if and only if every round so
     * far gave it the most that the round gave to anyone.
     */
    lemma AskedInStep(i: nat)
      requires Valid() && i < |queued|
      ensures queued[i].id in starts && starts[queued[i].id] <= queued[i].loff && origFileOff <= fileOff
      ensures queued[i].loff - starts[queued[i].id] == fileOff - origFileOff <==> queued[i].id !in short
    {
      assert Within(queued[i], starts, origLen, len);
      assert InStep(queued[i], origLen, len) <==> queued[i].id !in short;
    }

    /** How often the request is on the three lists together. */
    ghost function Requests(id: nat): nat
      reads this`queued, this`inProgress, this`completed
    {
      Count(queued, id) + Count(inProgress, id) + Count(completed, id)
    }

    /** add_extent_to_dedupe(): one more destination, before the dedupe starts; -1 without memory. */
    method AddExtent(loff: nat, file: nat, unshared: nat, memory: bool) returns (room: int, ghost id: nat)
      requires Valid() && numQueued < maxQueable && len == origLen && inProgress == completed == []
      requires numQueued == |queued|
      modifies this`queued, this`starts, this`numQueued
      ensures Valid() && numQueued == |queued|
      ensures memory ==>
                && id !in old(starts) && starts == old(starts)[id := loff]
                && queued == old(queued) + [Req(id, file, loff, 0, unshared, 0, 0)]
                && room == maxQueable - numQueued
      ensures !memory ==> room == -1 && queued == old(queued) && starts == old(starts)
    {
      hide Total, Count, ListsOk;
      id := |queued|;
      if !memory {
        return -1, id;
      }
      var r := Req(|queued|, file, loff, 0, unshared, 0, 0);
      Append(queued, r);
      ListsAdded(queued, r, starts, short, origLen);
      NotCounted(queued, r.id);
      NoWeight();
      queued := queued + [r];
      starts := starts[r.id := loff];
      numQueued := numQueued + 1;
      forall f
        ensures Requests(f) <= 1
      {
        assert old(Requests(f)) <= 1;
      }
      room := maxQueable - numQueued;
    }

    /** set_aligned_same_length() */
    function RoundLength(bs: nat): (n: nat)
      requires bs > 0
      reads this
      ensures n <= len && n <= 0x200_0000 && (len > 0 ==> n > 0)
      ensures !aligned ==> n == len || n == 0x200_0000
    {
      var n := if len > DEDUPE_ROUND_LEN then DEDUPE_ROUND_LEN else len;
      if aligned then Shareable(n, bs) else n
    }

    /** populate_dedupe_request(): everything queued goes into one request, in order. */
    method Populate(bs: nat) returns (same: Request)
      requires Valid() && inProgress == [] && bs > 0
      modifies this`queued, this`inProgress, this`numQueued
      ensures Valid() && forall f :: Requests(f) == old(Requests(f))
      ensures queued == [] && inProgress == Numbered(old(queued), |old(queued)|)
      ensures same.srcOffset == fileOff && same.srcLength == RoundLength(bs)
      ensures |same.dests| == |inProgress|
      ensures forall i :: 0 <= i < |inProgress| ==> same.dests[i] == (inProgress[i].file, inProgress[i].loff)
    {
      hide Total, Count, SumOf, ListsOk;
      var dests: seq<(nat, nat)> := [];
      ghost var todo := queued;
      ghost var n := 0;
      while queued != []
        invariant n == |dests| <= |todo| && numQueued >= |queued|
        invariant queued == todo[n..] && inProgress == Numbered(todo, n)
        invariant forall i :: 0 <= i < |inProgress| ==> dests[i] == (inProgress[i].file, inProgress[i].loff)
        decreases |queued|
      {
        assert |dests| < maxQueable;
        var r := queued[0].(idx := |dests|);
        dests := dests + [(r.file, r.loff)];
        inProgress := inProgress + [r];
        queued := queued[1..];
        numQueued := numQueued - 1;
        n := n + 1;
      }
      same := Request(fileOff, RoundLength(bs), dests);
      SameWeight(inProgress, todo);
      NoWeight();
      ListsSent(todo, inProgress, completed, starts, short, origLen, len);
      assert forall f :: Requests(f) == old(Requests(f));
    }

    /** One answer: the request is completed with its status, or queued for another round. */
    method Settle(info: Info)
      requires inProgress != [] && numQueued >= |queued|
      modifies this`queued, this`inProgress, this`completed, this`numQueued
      ensures inProgress == old(inProgress)[1..] && numQueued >= |queued|
      ensures var r := old(inProgress)[0];
              if Finished(r, info, origLen)
              then queued == old(queued) && completed == old(completed) + [Moved(r, info).(status := info.status)]
              else queued == old(queued) + [Moved(r, info)] && completed == old(completed)
    {
      var r := inProgress[0];
      r := r.(loff := r.loff + info.bytes, total := r.total + info.bytes);
      if info.status != 0 || r.total >= origLen {
        completed := completed + [r.(status := info.status)];
      } else {
        queued := queued + [r];
        numQueued := numQueued + 1;
      }
      inProgress := inProgress[1..];
    }

    /** process_dedupes(): the kernel's answers to one round. */
    method ProcessDedupes(infos: seq<Info>, bs: nat)
      requires queued == [] && |infos| == |inProgress| && MaxBytes(infos, |infos|) <= len && bs > 0
      requires forall i :: 0 <= i < |inProgress| ==> inProgress[i].idx == i
      modifies this`queued, this`inProgress, this`completed, this`numQueued, this`len, this`fileOff
      ensures inProgress == [] && len == old(len) - MaxBytes(infos, |infos|) && numQueued >= |queued|
      ensures fileOff == old(fileOff) + MaxBytes(infos, |infos|)
      ensures var stay := Stay(old(inProgress), infos, origLen, |infos|);
              var leave := Leave(old(inProgress), infos, origLen, |infos|);
              if aligned && len < bs then queued == [] && completed == stay + (old(completed) + leave)
              else queued == stay && completed == old(completed) + leave
    {
      hide Stay, Leave, MaxBytes, Finished, Moved;
      ghost var reqs := inProgress;
      var i, maxDeduped := 0, 0;
      NoAnswers(reqs, infos, origLen);
      while inProgress != []
        invariant i <= |reqs| && |inProgress| == |reqs| - i && inProgress == reqs[i..]
        invariant queued == Stay(reqs, infos, origLen, i)
        invariant completed == old(completed) + Leave(reqs, infos, origLen, i)
        invariant maxDeduped == MaxBytes(infos, i) && numQueued >= |queued|
        invariant len == old(len) && fileOff == old(fileOff)
        decreases |inProgress|
      {
        assert inProgress[0] == reqs[i];
        OneAnswer(reqs, infos, origLen, i);
        var info := infos[inProgress[0].idx];
        if info.bytes > maxDeduped {
          maxDeduped := info.bytes;
        }
        Settle(info);
        i := i + 1;
      }
      len := len - maxDeduped;
      fileOff := fileOff + maxDeduped;
      if aligned && len < bs {
        queued, completed := [], queued + completed;
      }
    }

    /** fail_in_flight(): the ioctl itself failed; what earlier rounds shared stays counted. */
    method FailInFlight(errno: int)
      modifies this`inProgress, this`queued, this`completed
      ensures inProgress == [] && queued == []
      ensures completed == old(completed) + AllFailed(old(inProgress), errno, |old(inProgress)|)
                           + AllFailed(old(queued), errno, |old(queued)|)
    {
      ghost var was, n := inProgress, 0;
      while inProgress != []
        invariant n <= |was| && inProgress == was[n..] && queued == old(queued)
        invariant completed == old(completed) + AllFailed(was, errno, n)
        decreases |inProgress|
      {
        completed := completed + [inProgress[0].(status := -errno)];
        inProgress := inProgress[1..];
        n := n + 1;
      }
      ghost var done := completed;
      was, n := queued, 0;
      while queued != []
        invariant n <= |was| && queued == was[n..] && inProgress == []
        invariant completed == done + AllFailed(was, errno, n)
        decreases |queued|
      {
        completed := completed + [queued[0].(status := -errno)];
        queued := queued[1..];
        n := n + 1;
      }
    }

    /** Every range asked for so far ends by the end of the work. */
    ghost predicate IssuedWithin()
      reads this`issued, this`origFileOff, this`origLen
    {
      forall i :: 0 <= i < |issued| ==> issued[i].srcOffset + issued[i].srcLength <= origFileOff + origLen
    }

    /** Nobody is done without a reason: an error, all bytes, or less than a block left to ask for. */
    ghost predicate Accounted(bs: nat)
      reads this`completed, this`origLen, this`aligned, this`len
    {
      AllFinished(completed, origLen) || (aligned && len < bs)
    }

    /** clamp_len_to_ioctl_file(): the work ends where the source does; no source size means fstat failed. */
    method Clamp(srcSize: Option<nat>)
      requires Valid() && len == origLen && inProgress == [] && completed == [] && issued == []
      requires forall i :: 0 <= i < |queued| ==> queued[i].total == 0
      modifies this`queued, this`completed, this`numQueued, this`len, this`origLen
      ensures Valid() && inProgress == [] && len == origLen <= old(origLen)
      ensures forall f :: Requests(f) == old(Requests(f))
      ensures srcSize.Some? ==> queued == [] || origFileOff + origLen <= srcSize.value
      ensures origLen == old(origLen) || (srcSize.Some? && origFileOff + origLen == srcSize.value)
      ensures completed != [] ==> queued == [] && srcSize.Some? && origFileOff >= srcSize.value
                                  && old(fileOff + len) > srcSize.value && old(fileOff) >= srcSize.value
      ensures queued == old(queued) || (queued == [] && completed == old(queued))
    {
      hide Total, Count, ListsOk;
      if srcSize == None || fileOff + len <= srcSize.value {
        return;
      }
      if fileOff >= srcSize.value {
        ListsEnded(queued, queued, completed, starts, short, origLen, len);
        queued, completed := [], queued + completed;
        numQueued := 0;
        assert completed == old(queued);
        assert forall f :: Requests(f) == old(Requests(f));
        return;
      }
      ListsClamped(queued, starts, short, origLen, srcSize.value - fileOff);
      len, origLen := srcSize.value - fileOff, srcSize.value - fileOff;
      assert forall f :: Requests(f) == old(Requests(f));
    }

    /** The ioctl, and its one retry with whole blocks when the first destination answers EINVAL. */
    method Ask(kernel: Kernel, call: nat, same: Request, bs: nat) returns (answer: Answer, call': nat)
      requires Valid() && Accounted(bs) && Honest(kernel) && bs > 0 && |same.dests| > 0
      requires same.srcOffset == fileOff && same.srcLength == RoundLength(bs)
      requires IssuedWithin() && call == |issued|
      modifies this`aligned, this`issued
      ensures Valid() && Accounted(bs) && IssuedWithin() && call' == |issued|
      ensures var first := kernel(call, same);
              var refused := first.Done? && first.infos[0].status == -EINVAL && !old(aligned);
              var again := same.(srcLength := RoundLength(bs));
              && aligned == (old(aligned) || refused)
              && (if refused && again.srcLength != same.srcLength
                  then issued == old(issued) + [same, again] && answer == kernel(call + 1, again)
                  else issued == old(issued) + [same] && answer == first)
      ensures answer.Done? ==> |answer.infos| == |same.dests| && MaxBytes(answer.infos, |answer.infos|) <= len
    {
      hide Total, Count, SumOf, ListsOk, AllFinished;
      issued := issued + [same];
      answer, call' := kernel(call, same), call + 1;
      if answer.Done? && answer.infos[0].status == -EINVAL && !aligned {
        var asked := same.srcLength;
        aligned := true;
        var again := same.(srcLength := RoundLength(bs));
        if again.srcLength != asked {
          issued := issued + [again];
          answer, call' := kernel(call', again), call' + 1;
        }
      }
    }

    /** What the answers do to the totals. */
    method Process(infos: seq<Info>, bs: nat)
      requires Valid() && IssuedWithin() && Accounted(bs) && bs > 0
      requires queued == [] && |infos| == |inProgress| && MaxBytes(infos, |infos|) <= len
      requires forall i :: 0 <= i < |inProgress| ==> inProgress[i].idx == i
      modifies this`queued, this`inProgress, this`completed, this`numQueued, this`len, this`fileOff, this`reported,
               this`short
      ensures Valid() && IssuedWithin() && Accounted(bs) && inProgress == []
      ensures len == old(len) - MaxBytes(infos, |infos|)
      ensures reported == old(reported) + [Bytes(infos)]
      ensures var stay := Stay(old(inProgress), infos, origLen, |infos|);
              var leave := Leave(old(inProgress), infos, origLen, |infos|);
              if aligned && len < bs then queued == [] && completed == stay + (old(completed) + leave)
              else queued == stay && completed == old(completed) + leave
      ensures short == old(short) + ShortIds(old(inProgress), infos)
      ensures forall f :: Requests(f) == old(Requests(f))
    {
      hide Count, Total, Bytes, Stay, Leave, AllFinished, MaxBytes, SumOf, ShortIds, ListsOk;
      ghost var reqs, before, n := inProgress, completed, |infos|;
      ghost var stay, leave := Stay(reqs, infos, origLen, n), Leave(reqs, infos, origLen, n);
      ghost var left, short' := len - MaxBytes(infos, n), short + ShortIds(reqs, infos);
      forall f
        ensures Count(reqs, f) + Count(before, f) <= 1
      {
        assert Requests(f) <= 1;
      }
      RoundWeighs(reqs, before, infos, origLen);
      RoundLists(reqs, before, infos, starts, short, origLen, len);
      LeftFinished(reqs, infos, origLen, n);
      if AllFinished(before, origLen) { BothFinished(before, leave, origLen); }
      NoWeight();
      ProcessDedupes(infos, bs);
      short := short';
      ReportMore(reported, Bytes(infos));
      reported := reported + [Bytes(infos)];
    }

    /** One turn of the loop in dedupe_extents(): populate, ask, and sort out the answers. */
    method Round(kernel: Kernel, call: nat, bs: nat) returns (ret: int, round: nat, call': nat)
      requires Valid() && IssuedWithin() && Accounted(bs) && Honest(kernel) && bs > 0
      requires inProgress == [] && queued != [] && call == |issued|
      modifies this`queued, this`inProgress, this`completed, this`numQueued, this`len, this`fileOff,
               this`aligned, this`issued, this`reported, this`short
      ensures Valid() && IssuedWithin() && inProgress == []
      ensures forall f :: Requests(f) == old(Requests(f))
      ensures ret == 0 ==> Accounted(bs) && reported == old(reported) + [round]
      ensures ret == 0 && round > 0 ==> len < old(len)
      ensures ret != 0 ==> queued == []
      ensures old(short) <= short
      ensures old(issued) < issued && call' == |issued|
      ensures NoneFailed(kernel, old(issued)) ==> (ret != 0 <==> !NoneFailed(kernel, issued))
      ensures ret == 0 ==> kernel(call' - 1, issued[call' - 1]).Done?
                           && round == Bytes(kernel(call' - 1, issued[call' - 1]).infos)
      ensures Generous(kernel) && old(!aligned && AllPlain(queued, completed, origLen, len)) ==>
                ret == 0 && !aligned && AllPlain(queued, completed, origLen, len) && (round > 0 || queued == [])
    {
      hide *;
      ghost var q, before, was := queued, completed, len;
      ghost var plain := !aligned && AllPlain(queued, completed, origLen, len) && Generous(kernel);
      var same := Populate(bs);
      if plain {
        GenerousFirst(kernel, call, same);
        GenerousRound(kernel, call, same, q, before, origLen, was);
      }
      var answer;
      answer, call' := Ask(kernel, call, same, bs);
      AskedMore(kernel, old(issued), issued, call' - 1);
      ret, round := Conclude(answer, bs);
    }

    /** What the answer of a round comes to. */
    method Conclude(answer: Answer, bs: nat) returns (ret: int, round: nat)
      requires Valid() && IssuedWithin() && Accounted(bs) && bs > 0 && queued == []
      requires answer.Done? ==> |answer.infos| == |inProgress| && MaxBytes(answer.infos, |answer.infos|) <= len
      requires forall i :: 0 <= i < |inProgress| ==> inProgress[i].idx == i
      modifies this`queued, this`inProgress, this`completed, this`numQueued, this`len, this`fileOff, this`reported,
               this`short
      ensures Valid() && IssuedWithin() && inProgress == [] && old(short) <= short
      ensures forall f :: Requests(f) == old(Requests(f))
      ensures answer.Failed? ==>
                && ret == -1 && queued == []
                && completed == old(completed) + AllFailed(old(inProgress), answer.errno, |old(inProgress)|)
      ensures answer.Done? ==>
                && ret == 0 && round == Bytes(answer.infos) && reported == old(reported) + [round]
                && Accounted(bs) && len == old(len) - MaxBytes(answer.infos, |answer.infos|)
                && (round > 0 ==> len < old(len))
                && (!aligned || len >= bs ==>
                      && queued == Stay(old(inProgress), answer.infos, origLen, |answer.infos|)
                      && completed == old(completed) + Leave(old(inProgress), answer.infos, origLen, |answer.infos|))
    {
      hide Total, Count, Bytes, AllFinished, MaxBytes, SumOf, ListsOk, Stay, Leave;
      if answer.Failed? {
        Fail(answer.errno);
        return -1, 0;
      }
      round := RoundBytes(answer.infos);
      NoBytes(answer.infos);
      Process(answer.infos, bs);
      ret := 0;
    }

    method Fail(errno: int)
      requires Valid()
      modifies this`inProgress, this`queued, this`completed
      ensures Valid() && inProgress == [] && queued == []
      ensures forall f :: Requests(f) == old(Requests(f))
      ensures completed == old(completed) + AllFailed(old(inProgress), errno, |old(inProgress)|)
                           + AllFailed(old(queued), errno, |old(queued)|)
    {
      hide Total, Count, ListsOk;
      ghost var p, q, c := inProgress, queued, completed;
      ghost var pf, qf := AllFailed(p, errno, |p|), AllFailed(q, errno, |q|);
      NoWeight();
      FailInFlight(errno);
      SameWeight(pf, p);
      SameWeight(qf, q);
      Concat(c, pf);
      Concat(c + pf, qf);
      ListsFailed(q, qf, p, pf, c, starts, short, origLen, len);
      assert forall f :: Requests(f) == old(Requests(f));
    }

    /** Everything still queued is completed as it is: nothing more can be done for it. */
    method GiveUp()
      requires Valid() && inProgress == []
      modifies this`queued, this`completed
      ensures Valid() && queued == [] && completed == old(queued) + old(completed)
      ensures forall f :: Requests(f) == old(Requests(f))
    {
      hide Total, Count, ListsOk;
      Concat(queued, completed);
      NoWeight();
      ListsEnded(queued, queued, completed, starts, short, origLen, len);
      queued, completed := [], queued + completed;
      assert forall f :: Requests(f) == old(Requests(f));
    }

    /**
     * dedupe_extents(): rounds until nothing is queued, the ioctl fails, or a round moves nothing. Whatever
     * the kernel answers, every request ends up completed, exactly once; no range goes past the end of the
     * source; the bytes reported to the progress callback are those the requests have in total; and only one
     * that every round gave the most it gave to anyone gets all its bytes.
     */
    method DedupeExtents(kernel: Kernel, srcSize: Option<nat>, bs: nat) returns (ret: int)
      requires Valid() && Honest(kernel) && bs > 0
      requires len == origLen && inProgress == [] && completed == [] && issued == []
      requires forall i :: 0 <= i < |queued| ==> queued[i].total == 0
      modifies this
      ensures Valid() && queued == [] && inProgress == []
      ensures forall f :: Count(completed, f) == old(Requests(f))
      ensures SumOf(reported) == Total(completed)
      ensures forall i :: 0 <= i < |completed| && completed[i].total >= origLen ==> completed[i].id !in short
      ensures srcSize.Some? ==> forall i :: 0 <= i < |issued| ==>
                issued[i].srcOffset + issued[i].srcLength <= srcSize.value
      ensures ret != 0 <==> !NoneFailed(kernel, issued)
      ensures Generous(kernel) && !old(aligned) && (forall i :: 0 <= i < |old(queued)| ==> old(queued)[i].status == 0)
              && (srcSize == None || old(fileOff) < srcSize.value || old(fileOff + len) <= srcSize.value) ==>
                ret == 0 && forall i :: 0 <= i < |completed| ==>
                  completed[i].status == 0 && completed[i].total == origLen
      ensures origFileOff == old(origFileOff)
      ensures origLen == old(origLen) || (srcSize.Some? && origFileOff + origLen == srcSize.value)
      ensures ret == 0 ==>
                || AllFinished(completed, origLen)
                || (aligned && len < bs)
                || (srcSize.Some? && srcSize.value <= origFileOff)
                || (reported != [] && reported[|reported| - 1] == 0)
    {
      hide *;
      ret := 0;
      Clamp(srcSize);
      var call := 0;
      ghost var clamped, off, plain := origLen, origFileOff, !aligned && AllPlain(queued, completed, origLen, len);
      if completed == [] {
        NobodyDone(completed, origLen);
        if forall i :: 0 <= i < |queued| ==> queued[i].status == 0 {
          PlainAtFirst(queued, completed, origLen);
        }
      }
      Beginning(bs);
      NothingAsked(kernel, issued);
      while queued != []
        invariant Valid() && IssuedWithin() && inProgress == []
        invariant origLen == clamped && origFileOff == off
        invariant srcSize.Some? ==> (queued == [] && issued == []) || off + clamped <= srcSize.value
        invariant Accounted(bs) || (queued == [] && srcSize.Some? && srcSize.value <= off)
        invariant forall f :: Requests(f) == old(Requests(f))
        invariant call == |issued| && ret == 0
        invariant NoneFailed(kernel, issued)
        invariant plain && Generous(kernel) ==> !aligned && AllPlain(queued, completed, origLen, len)
        decreases queued != [], len
      {
        var round;
        ret, round, call := Round(kernel, call, bs);
        if ret != 0 {
          break;
        }
        if round == 0 && queued != [] {
          GiveUp();
          break;
        }
      }
      Ending(bs);
      if plain && Generous(kernel) {
        PlainAtLast(queued, completed, origLen, len);
      }
    }

    lemma Beginning(bs: nat)
      requires issued == []
      ensures IssuedWithin() && (AllFinished(completed, origLen) ==> Accounted(bs))
    {
    }

    /** What the invariant says once nothing is queued or in flight. */
    lemma Ending(bs: nat)
      requires Valid() && IssuedWithin() && queued == [] && inProgress == []
      ensures forall f :: Count(completed, f) == Requests(f)
      ensures SumOf(reported) == Total(completed)
      ensures forall i :: 0 <= i < |completed| && completed[i].total >= origLen ==> completed[i].id !in short
      ensures forall i :: 0 <= i < |issued| ==> issued[i].srcOffset + issued[i].srcLength <= origFileOff + origLen
      ensures Accounted(bs) ==> AllFinished(completed, origLen) || (aligned && len < bs)
    {
      hide Count, Total, SumOf, AllFinished;
      NoWeight();
      DoneWasGiven(completed, starts, short, origLen, len);
    }

    /** pop_one_dedupe_result(): true when it was the last. */
    method PopResult() returns (last: bool, file: nat, status: int, bytesFreed: nat, bytesDone: nat)
      requires completed != []
      modifies this`completed
      ensures completed == old(completed)[1..] && (last <==> completed == [])
      ensures file == old(completed)[0].file && status == old(completed)[0].status
      ensures bytesDone == old(completed)[0].total && bytesFreed <= bytesDone
      ensures bytesFreed == old(completed)[0].unshared || (bytesFreed == bytesDone < old(completed)[0].unshared)
    {
      var r := completed[0];
      completed := completed[1..];
      file, status, bytesDone := r.file, r.status, r.total;
      bytesFreed := if r.unshared < r.total then r.unshared else r.total;
      last := completed == [];
    }
  }

  lemma NoWeight()
    ensures SumOf([]) == 0 && Total([]) == 0 && forall f :: Count([], f) == 0
  {
  }

  lemma NobodyDone(s: seq<Req>, origLen: nat)
    requires s == []
    ensures AllFinished(s, origLen)
  {
  }

  /** The bytes of a round, as dedupe_extents() sums them for the callback. */
  method RoundBytes(infos: seq<Info>) returns (round: nat)
    ensures round == Bytes(infos)
  {
    hide Bytes;
    round := 0;
    assert Bytes(infos[..0]) == 0 by { NoInfos(infos[..0]); }
    for i := 0 to |infos|
      invariant round == Bytes(infos[..i])
    {
      BytesPrefix(infos, i);
      round := round + infos[i].bytes;
    }
    assert infos[..|infos|] == infos;
  }

  lemma NoInfos(infos: seq<Info>)
    requires infos == []
    ensures Bytes(infos) == 0
  {
  }
}
