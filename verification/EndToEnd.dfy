/**
 The generator's stream through the codec, the pipeline and the book: at every
 message boundary the book holds exactly the orders the generator believes live.
 */
module EndToEnd {
  import opened BookSpec
  import opened Feed
  import opened Itch
  import opened Pipeline
  import opened Reference
  import opened RingBuffer
  import opened Synth

  lemma {:induction false} FitsInMore(ms: seq<Message>, small: nat, large: nat)
    requires FitsOnTheWay(ms, small) && small <= large
    ensures FitsOnTheWay(ms, large)
  {
    hide Replay;
    if ms != [] {
      FitsInMore(ms[..|ms| - 1], small, large);
    }
  }

  lemma {:induction false} FitsPrefix(ms: seq<Message>, capacity: nat, k: nat)
    requires FitsOnTheWay(ms, capacity) && k <= |ms|
    ensures FitsOnTheWay(ms[..k], capacity)
    decreases |ms|
  {
    hide Replay;
    if k == |ms| {
      assert ms[..k] == ms;
    } else {
      FitsPrefix(ms[..|ms| - 1], capacity, k);
      assert ms[..|ms| - 1][..k] == ms[..k];
    }
  }

  /**
   A book with room for `numOrders` accepts every order-flow message of the
   stream, and after each one its live orders, with price, shares and side, are
   those of the generator at that boundary.
   */
  lemma BookFollowsGenerator(out: Bytes, raws: seq<Bytes>, sent: seq<Message>, lives: seq<RefMap>, numOrders: nat,
                             capacity: nat)
    requires Faithful(out, raws, sent, lives, numOrders) && numOrders <= capacity
    ensures AcceptsAll(EMPTY_BOOK, capacity, sent)
    ensures forall k :: 0 <= k <= |sent| ==> MapOf(ApplyAll(EMPTY_BOOK, capacity, sent[..k]).live) == lives[k]
  {
    hide ApplyAll, MapOf, Replay, AcceptsAll, FitsOnTheWay;
    FitsInMore(sent, numOrders, capacity);
    FaithfulDecodes(out, raws, sent, lives, numOrders);
    ReplayOnBook(capacity, sent);
    forall k | 0 <= k <= |sent|
      ensures MapOf(ApplyAll(EMPTY_BOOK, capacity, sent[..k]).live) == lives[k]
    {
      assert ReplayedTo(sent, k, lives[k]);
      FitsPrefix(sent, capacity, k);
      ReplayOnBook(capacity, sent[..k]);
    }
  }

  /**
   The two-thread pipeline over a generated stream and an empty book: in every
   interleaving the book follows the generator's orders, and when the consumer
   has left it holds the final ones, all messages counted.
   */
  lemma PipelineFollowsGenerator(cfg: Config, run: seq<Action>, raws: seq<Bytes>, sent: seq<Message>,
                                 lives: seq<RefMap>, numOrders: nat)
    requires RingSize(cfg.capacity) && cfg.capacity >= 1 && Possible(cfg, Start(cfg), run)
    requires Faithful(cfg.raw, raws, sent, lives, numOrders) && numOrders <= cfg.bookCapacity && cfg.book == EMPTY_BOOK
    ensures var t := Exec(cfg, Start(cfg), run);
            && t.processed <= |sent|
            && MapOf(t.book.live) == lives[t.processed]
            && (t.consumer.Exited? ==> t.processed == |sent|)
  {
    hide ApplyAll, MapOf, Faithful, RingSize, Possible, Exec;
    EveryRunIsSafe(cfg, run);
    var t := Exec(cfg, Start(cfg), run);
    FaithfulDecodes(cfg.raw, raws, sent, lives, numOrders);
    BookFollowsGenerator(cfg.raw, raws, sent, lives, numOrders, cfg.bookCapacity);
    if t.consumer.Exited? {
      ExitIsComplete(cfg, run);
    }
  }
}
