/** Whole runs of inserts and deletes on a fingerprint filter, as the caller sees them. */
module FilterHistory {
  import opened FingerprintBag

  /** A call and its outcome. */
  datatype Event =
    | Inserted(hash: nat)
    | Refused(hash: nat)
    | Deleted(hash: nat)
    | Missed(hash: nat)

  type Classify = nat -> Class

  function Before(h: seq<Event>): (p: seq<Event>)
    requires h != []
    ensures |p| == |h| - 1
  {
    h[..|h| - 1]
  }

  /** The bag of classes a run leaves behind. */
  ghost function Contents(cls: Classify, h: seq<Event>): (m: multiset<Class>)
    decreases |h|
  {
    if h == [] then multiset{}
    else
      var m := Contents(cls, Before(h));
      match h[|h| - 1]
      case Inserted(x) => m + multiset{cls(x)}
      case Deleted(x) => m - multiset{cls(x)}
      case _ => m
  }

  /** A delete succeeds exactly when the class is present. */
  ghost predicate Legal(cls: Classify, h: seq<Event>)
    decreases |h|
  {
    h != [] ==>
      && Legal(cls, Before(h))
      && match h[|h| - 1]
         case Deleted(x) => cls(x) in Contents(cls, Before(h))
         case Missed(x) => cls(x) !in Contents(cls, Before(h))
         case _ => true
  }

  /** The hashes inserted and not deleted since, with multiplicity. */
  ghost function Live(h: seq<Event>): (m: multiset<nat>)
    decreases |h|
  {
    if h == [] then multiset{}
    else
      var m := Live(Before(h));
      match h[|h| - 1]
      case Inserted(x) => m + multiset{x}
      case Deleted(x) => m - multiset{x}
      case _ => m
  }

  /** The caller deletes only what it has inserted and not deleted since. */
  ghost predicate Honest(h: seq<Event>)
    decreases |h|
  {
    h != [] ==>
      && Honest(Before(h))
      && ((h[|h| - 1].Deleted? || h[|h| - 1].Missed?) ==> h[|h| - 1].hash in Live(Before(h)))
  }

  ghost function Pick(m: multiset<nat>): (x: nat)
    requires m != multiset{}
    ensures x in m
  {
    var x :| x in m;
    x
  }

  /** The classes of a bag of hashes. */
  ghost function Image(cls: Classify, m: multiset<nat>): (c: multiset<Class>)
    decreases |m|
  {
    if m == multiset{} then multiset{}
    else
      var x := Pick(m);
      Image(cls, m - multiset{x}) + multiset{cls(x)}
  }

  lemma {:induction false} ImageRemove(cls: Classify, m: multiset<nat>, y: nat)
    requires y in m
    ensures Image(cls, m) == Image(cls, m - multiset{y}) + multiset{cls(y)}
    decreases |m|
  {
    var x := Pick(m);
    ImagePick(cls, m);
    if x != y {
      hide Image;
      var both := m - multiset{x} - multiset{y};
      assert both == m - multiset{y} - multiset{x};
      assert |m - multiset{x}| < |m| && |m - multiset{y}| < |m|;
      ImageRemove(cls, m - multiset{x}, y);
      ImageRemove(cls, m - multiset{y}, x);
      Exchange(Image(cls, both), cls(x), cls(y));
    }
  }

  lemma {:induction false} ImagePick(cls: Classify, m: multiset<nat>)
    requires m != multiset{}
    ensures Image(cls, m) == Image(cls, m - multiset{Pick(m)}) + multiset{cls(Pick(m))}
  {
  }

  lemma {:induction false} Exchange(c: multiset<Class>, x: Class, y: Class)
    ensures c + multiset{y} + multiset{x} == c + multiset{x} + multiset{y}
  {
  }

  lemma {:induction false} Unfold(cls: Classify, h: seq<Event>)
    requires h != []
    ensures var c, l := Contents(cls, Before(h)), Live(Before(h));
      match h[|h| - 1]
      case Inserted(x) => Contents(cls, h) == c + multiset{cls(x)} && Live(h) == l + multiset{x}
      case Deleted(x) => Contents(cls, h) == c - multiset{cls(x)} && Live(h) == l - multiset{x}
      case _ => Contents(cls, h) == c && Live(h) == l
  {
  }

  /** After every run in which only live hashes are deleted, the filter holds exactly the
      classes of the live hashes, and no delete has missed. */
  lemma {:induction false} ContentsIsImage(cls: Classify, h: seq<Event>)
    requires Legal(cls, h) && Honest(h)
    ensures Contents(cls, h) == Image(cls, Live(h))
    ensures forall i :: 0 <= i < |h| ==> !h[i].Missed?
    decreases |h|
  {
    hide Image, Contents, Live;
    if h == [] {
      NothingYet(cls);
    } else {
      ContentsIsImage(cls, Before(h));
      ImageStep(cls, h);
      assert h == Before(h) + [h[|h| - 1]];
    }
  }

  lemma {:induction false} NothingYet(cls: Classify)
    ensures Contents(cls, []) == Image(cls, Live([]))
  {
    assert Live([]) == multiset{};
  }

  lemma {:induction false} ImageStep(cls: Classify, h: seq<Event>)
    requires h != [] && Legal(cls, h) && Honest(h) && Contents(cls, Before(h)) == Image(cls, Live(Before(h)))
    ensures Contents(cls, h) == Image(cls, Live(h)) && !h[|h| - 1].Missed?
  {
    hide Image, Contents, Live;
    Unfold(cls, h);
    match h[|h| - 1]
    case Inserted(x) =>
      ImageInsert(cls, Live(Before(h)), x);
    case Deleted(x) =>
      ImageDelete(cls, Live(Before(h)), x);
    case Refused(_) =>
    case Missed(x) =>
      ImageDelete(cls, Live(Before(h)), x);
  }

  lemma {:induction false} ImageInsert(cls: Classify, m: multiset<nat>, y: nat)
    ensures Image(cls, m + multiset{y}) == Image(cls, m) + multiset{cls(y)}
  {
    hide Image;
    ImageRemove(cls, m + multiset{y}, y);
    assert m + multiset{y} - multiset{y} == m;
  }

  lemma {:induction false} ImageDelete(cls: Classify, m: multiset<nat>, y: nat)
    requires y in m
    ensures cls(y) in Image(cls, m) && Image(cls, m - multiset{y}) == Image(cls, m) - multiset{cls(y)}
  {
    hide Image;
    ImageRemove(cls, m, y);
    Cancel(Image(cls, m - multiset{y}), Image(cls, m), cls(y));
  }

  /** No false negatives: every live hash has its class in the filter. */
  lemma {:induction false} LiveIsFound(cls: Classify, h: seq<Event>, x: nat)
    requires Legal(cls, h) && Honest(h) && x in Live(h)
    ensures cls(x) in Contents(cls, h)
  {
    ContentsIsImage(cls, h);
    ImageRemove(cls, Live(h), x);
  }

  /** The caller's restraint is needed: deleting a colliding hash that was never inserted
      succeeds and hides the one that was. */
  lemma {:induction false} ForeignDeleteHides(cls: Classify, x: nat, y: nat)
    requires x != y && cls(x) == cls(y)
    ensures var h := [Inserted(x), Deleted(y)];
      Legal(cls, h) && !Honest(h) && x in Live(h) && cls(x) !in Contents(cls, h)
  {
    var h := [Inserted(x), Deleted(y)];
    assert Before(h) == [Inserted(x)] && Before(Before(h)) == [];
    assert Contents(cls, []) == multiset{} && Live([]) == multiset{};
    assert Contents(cls, Before(h)) == multiset{cls(x)} && Live(Before(h)) == multiset{x};
  }

  /** One more call. */
  lemma {:induction false} Append(cls: Classify, h: seq<Event>, e: Event)
    requires Legal(cls, h)
    ensures var h' := h + [e];
      match e
      case Inserted(x) => Legal(cls, h') && Contents(cls, h') == Contents(cls, h) + multiset{cls(x)}
      case Refused(x) => Legal(cls, h') && Contents(cls, h') == Contents(cls, h)
      case Deleted(x) => cls(x) in Contents(cls, h) ==>
          Legal(cls, h') && Contents(cls, h') == Contents(cls, h) - multiset{cls(x)}
      case Missed(x) => cls(x) !in Contents(cls, h) ==>
          Legal(cls, h') && Contents(cls, h') == Contents(cls, h)
  {
    var h' := h + [e];
    assert Before(h') == h && h'[|h|] == e;
  }
}
