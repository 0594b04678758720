/**
  A copy of words that is made while other threads run. They may do anything but
  write to the words that are read or have been written, and the copy is still
  what was there at the beginning.
 */
module WordCopy {

  /** The `len` words from `at` on are the same. */
  ghost predicate Same(w: seq<nat>, v: seq<nat>, at: nat, len: nat) {
    |v| == |w| && at + len <= |w| && v[at..at + len] == w[at..at + len]
  }

  /** Where to copy: `len` words from `src` to `dst`, which lie apart. */
  datatype Job = Job(dst: nat, src: nat, len: nat)

  ghost predicate JobOk(w: seq<nat>, c: Job) {
    && c.dst + c.len <= |w| && c.src + c.len <= |w|
    && (c.src + c.len <= c.dst || c.dst + c.len <= c.src)
  }

  /** What happens next: other threads leave memory `v`, or one more word is copied. */
  datatype Event = Others(v: seq<nat>) | Word

  ghost predicate Allowed(w: seq<nat>, k: nat, c: Job, e: Event) {
    match e
    case Others(v) => Same(w, v, c.src, c.len) && Same(w, v, c.dst, c.len)
    case Word => k < c.len
  }

  ghost function Next(w: seq<nat>, k: nat, c: Job, e: Event): (seq<nat>, nat)
    requires JobOk(w, c) && Allowed(w, k, c, e)
  {
    match e
    case Others(v) => (v, k)
    case Word => (w[c.dst + k := w[c.src + k]], k + 1)
  }

  /** The events are possible from memory `w` on, `k` words being copied already. */
  ghost predicate Possible(w: seq<nat>, k: nat, c: Job, events: seq<Event>)
    requires JobOk(w, c)
    decreases |events|
  {
    events == [] ||
    (Allowed(w, k, c, events[0]) &&
     var (v, n) := Next(w, k, c, events[0]);
     Possible(v, n, c, events[1..]))
  }

  /** The memory after them, and the number of words copied. */
  ghost function Run(w: seq<nat>, k: nat, c: Job, events: seq<Event>): (seq<nat>, nat)
    requires JobOk(w, c) && Possible(w, k, c, events)
    decreases |events|
  {
    if events == [] then (w, k)
    else
      var (v, n) := Next(w, k, c, events[0]);
      Run(v, n, c, events[1..])
  }

  /** `k` words are copied, and all that are to be copied are still as in `w0`. */
  ghost predicate Copied(w0: seq<nat>, w: seq<nat>, k: nat, c: Job) {
    && JobOk(w0, c) && k <= c.len && Same(w0, w, c.src, c.len)
    && w[c.dst..c.dst + k] == w0[c.src..c.src + k]
  }

  lemma SamePrefix(w: seq<nat>, v: seq<nat>, at: nat, len: nat, k: nat)
    requires Same(w, v, at, len) && k <= len
    ensures v[at..at + k] == w[at..at + k]
  {
    assert v[at..at + k] == v[at..at + len][..k];
    assert w[at..at + k] == w[at..at + len][..k];
  }

  lemma SameAt(w: seq<nat>, v: seq<nat>, at: nat, len: nat, k: nat)
    requires Same(w, v, at, len) && k < len
    ensures v[at + k] == w[at + k]
  {
    assert v[at + k] == v[at..at + len][k] && w[at + k] == w[at..at + len][k];
  }

  lemma WordCopies(w0: seq<nat>, w: seq<nat>, k: nat, c: Job)
    requires Copied(w0, w, k, c) && k < c.len
    ensures Copied(w0, w[c.dst + k := w[c.src + k]], k + 1, c)
  {
    var v := w[c.dst + k := w[c.src + k]];
    SameAt(w0, w, c.src, c.len, k);
    assert v[c.dst..c.dst + (k + 1)] == w[c.dst..c.dst + k] + [w[c.src + k]];
    assert w0[c.src..c.src + (k + 1)] == w0[c.src..c.src + k] + [w0[c.src + k]];
    assert v[c.src..c.src + c.len] == w[c.src..c.src + c.len];
  }

  lemma StepCopies(w0: seq<nat>, w: seq<nat>, k: nat, c: Job, e: Event)
    requires Copied(w0, w, k, c) && Allowed(w, k, c, e)
    ensures var (v, n) := Next(w, k, c, e); Copied(w0, v, n, c)
  {
    match e
    case Others(v) => SamePrefix(w, v, c.dst, c.len, k);
    case Word => WordCopies(w0, w, k, c);
  }

  /** The words copied are those at the beginning, whatever other threads did in between. */
  lemma {:induction false} CopySurvives(w0: seq<nat>, w: seq<nat>, k: nat, c: Job, events: seq<Event>)
    requires Copied(w0, w, k, c) && Possible(w, k, c, events)
    ensures var (v, n) := Run(w, k, c, events); Copied(w0, v, n, c)
    decreases |events|
  {
    if events != [] {
      StepCopies(w0, w, k, c, events[0]);
      var (v, n) := Next(w, k, c, events[0]);
      CopySurvives(w0, v, n, c, events[1..]);
    }
  }

  /** The events copy all words of the job, and then, in `v`, those are left alone. */
  ghost predicate Finished(w: seq<nat>, c: Job, events: seq<Event>, v: seq<nat>) {
    && JobOk(w, c) && Possible(w, 0, c, events)
    && Run(w, 0, c, events).1 == c.len && Same(Run(w, 0, c, events).0, v, c.dst, c.len)
  }

  /** In `v` there is at the destination what was in `w` at the source. */
  ghost predicate Arrived(w: seq<nat>, c: Job, v: seq<nat>) {
    && c.src + c.len <= |w| && c.dst + c.len <= |v|
    && v[c.dst..c.dst + c.len] == w[c.src..c.src + c.len]
  }

  /** A finished copy has brought over what was there before it began, in `w0`. */
  lemma FinishedCopies(w0: seq<nat>, w: seq<nat>, c: Job, events: seq<Event>, v: seq<nat>)
    requires JobOk(w, c) && Same(w0, w, c.src, c.len)
    ensures JobOk(w0, c) && (Finished(w, c, events, v) ==> Arrived(w0, c, v))
  {
    if Finished(w, c, events, v) {
      assert w[c.dst..c.dst + 0] == w[c.src..c.src + 0];
      CopySurvives(w, w, 0, c, events);
    }
  }
}
