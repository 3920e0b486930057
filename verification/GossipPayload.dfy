/** What the signed text of a gossip binds, and what it does not. */
module GossipPayload {
  import opened Wrappers
  import opened Gossip
  import opened GossipAuth

  /** A text without a separator. */
  ghost predicate Without(s: string, separator: char) {
    forall i :: 0 <= i < |s| ==> s[i] != separator
  }

  /** No separator occurs in the texts of an envelope, and no threat is empty. */
  ghost predicate Clean(e: Envelope) {
    && Without(e.gossipId, '|')
    && Without(e.sender.peerId, '|') && Without(e.sender.address, '|') && Without(e.sender.role, '|')
    && forall i :: 0 <= i < |e.observedThreats| ==> e.observedThreats[i] != "" && Without(e.observedThreats[i], ',')
  }

  lemma SplitAt(a: string, b: string, x: string, y: string, c: char)
    requires Without(a, c) && Without(b, c) && a + [c] + x == b + [c] + y
    ensures a == b && x == y
  {
    var s := a + [c] + x;
    assert s[|a|] == c && s[|b|] == c;
    assert forall i :: 0 <= i < |a| ==> s[i] == a[i];
    assert forall i :: 0 <= i < |b| ==> s[i] == b[i];
    assert a == s[..|a|] == b;
    assert x == s[|a| + 1..] == y;
  }

  lemma {:induction false} DigitsAreClean(n: nat)
    ensures forall i :: 0 <= i < |Digits(n)| ==> '0' <= Digits(n)[i] <= '9'
  {
    if n >= 10 {
      DigitsAreClean(n / 10);
    }
  }

  lemma DecimalIsClean(n: int)
    ensures Without(Decimal(n), '|')
  {
    DigitsAreClean(if 0 <= n then n else -n);
  }

  lemma DecimalInjective(m: int, n: int)
    requires Decimal(m) == Decimal(n)
    ensures m == n
  {
    DigitsAreClean(if 0 <= m then m else -m);
    DigitsAreClean(if 0 <= n then n else -n);
    assert Decimal(m)[0] == '-' <==> m < 0;
    assert Decimal(n)[0] == '-' <==> n < 0;
    if 0 <= m {
      DigitsInjective(m, n);
    } else {
      assert Decimal(m)[1..] == Digits(-m) && Decimal(n)[1..] == Digits(-n);
      DigitsInjective(-m, -n);
    }
  }

  // ----- the list of threats -------------------------------------------------

  ghost predicate CleanThreats(ts: seq<string>) {
    forall i :: 0 <= i < |ts| ==> ts[i] != "" && Without(ts[i], ',')
  }

  lemma JoinNotEmpty(ts: seq<string>)
    requires ts != [] && CleanThreats(ts)
    ensures Join(ts, ",") != ""
  {
  }

  /** A comma in the joined text is one that joins. */
  lemma JoinOne(t: string, ts: seq<string>)
    requires CleanThreats([t]) && CleanThreats(ts) && |ts| > 1
    ensures t != Join(ts, ",")
  {
    var s := Join(ts, ",");
    assert ts[0] in ts && s == ts[0] + "," + Join(ts[1..], ",");
    assert s[|ts[0]|] == ',';
    assert [t][0] == t;
  }

  lemma {:induction false} JoinInjective(a: seq<string>, b: seq<string>)
    requires CleanThreats(a) && CleanThreats(b) && Join(a, ",") == Join(b, ",")
    ensures a == b
  {
    if a == [] || b == [] {
      if a != [] {
        JoinNotEmpty(a);
      }
      if b != [] {
        JoinNotEmpty(b);
      }
    } else if |a| == 1 || |b| == 1 {
      if |a| == 1 && |b| > 1 {
        assert a == [a[0]];
        JoinOne(a[0], b);
      } else if |b| == 1 && |a| > 1 {
        assert b == [b[0]];
        JoinOne(b[0], a);
      }
    } else {
      SplitAt(a[0], b[0], Join(a[1..], ","), Join(b[1..], ","), ',');
      JoinInjective(a[1..], b[1..]);
      assert a == [a[0]] + a[1..] && b == [b[0]] + b[1..];
    }
  }

  // ----- the whole text ------------------------------------------------------

  /** The payload as nested pairs of a field and the rest. */
  lemma PayloadUnfolds(e: Envelope)
    ensures SigningPayload(e)
            == e.gossipId + ['|'] + (Decimal(e.ttlHops) + ['|'] + (e.sender.peerId + ['|'] + (e.sender.address + ['|']
               + (e.sender.role + ['|'] + (Decimal(e.observedOrganisms) + ['|']
               + (Decimal(TimestampMillis(e.sentAt)) + ['|'] + Join(e.observedThreats, ",")))))))
  {
    hide Decimal, Join, TimestampMillis;
  }

  /** For clean envelopes the signed text binds every field: two of them have one text if and only if they agree
      on all fields, the instant to the millisecond. */
  lemma PayloadBindsAll(e: Envelope, f: Envelope)
    requires Clean(e) && Clean(f)
    ensures SigningPayload(e) == SigningPayload(f) <==>
            && e.gossipId == f.gossipId && e.ttlHops == f.ttlHops && e.sender == f.sender
            && e.observedOrganisms == f.observedOrganisms
            && e.sentAt / 1_000_000 == f.sentAt / 1_000_000
            && e.observedThreats == f.observedThreats
  {
    PayloadUnfolds(e);
    PayloadUnfolds(f);
    if SigningPayload(e) == SigningPayload(f) {
      FieldsAgree(e, f);
    }
  }

  lemma FieldsAgree(e: Envelope, f: Envelope)
    requires Clean(e) && Clean(f) && SigningPayload(e) == SigningPayload(f)
    ensures e.gossipId == f.gossipId && e.ttlHops == f.ttlHops && e.sender == f.sender
    ensures e.observedOrganisms == f.observedOrganisms
    ensures TimestampMillis(e.sentAt) == TimestampMillis(f.sentAt)
    ensures e.observedThreats == f.observedThreats
  {
    PayloadUnfolds(e);
    PayloadUnfolds(f);
    DecimalIsClean(e.ttlHops);
    DecimalIsClean(f.ttlHops);
    DecimalIsClean(e.observedOrganisms);
    DecimalIsClean(f.observedOrganisms);
    DecimalIsClean(TimestampMillis(e.sentAt));
    DecimalIsClean(TimestampMillis(f.sentAt));
    hide SigningPayload, Decimal, Join, TimestampMillis;
    var e7, f7 := Join(e.observedThreats, ","), Join(f.observedThreats, ",");
    var e6, f6 := Decimal(TimestampMillis(e.sentAt)) + ['|'] + e7, Decimal(TimestampMillis(f.sentAt)) + ['|'] + f7;
    var e5, f5 := Decimal(e.observedOrganisms) + ['|'] + e6, Decimal(f.observedOrganisms) + ['|'] + f6;
    var e4, f4 := e.sender.role + ['|'] + e5, f.sender.role + ['|'] + f5;
    var e3, f3 := e.sender.address + ['|'] + e4, f.sender.address + ['|'] + f4;
    var e2, f2 := e.sender.peerId + ['|'] + e3, f.sender.peerId + ['|'] + f3;
    var e1, f1 := Decimal(e.ttlHops) + ['|'] + e2, Decimal(f.ttlHops) + ['|'] + f2;
    SplitAt(e.gossipId, f.gossipId, e1, f1, '|');
    SplitAt(Decimal(e.ttlHops), Decimal(f.ttlHops), e2, f2, '|');
    SplitAt(e.sender.peerId, f.sender.peerId, e3, f3, '|');
    SplitAt(e.sender.address, f.sender.address, e4, f4, '|');
    SplitAt(e.sender.role, f.sender.role, e5, f5, '|');
    SplitAt(Decimal(e.observedOrganisms), Decimal(f.observedOrganisms), e6, f6, '|');
    SplitAt(Decimal(TimestampMillis(e.sentAt)), Decimal(TimestampMillis(f.sentAt)), e7, f7, '|');
    DecimalInjective(e.ttlHops, f.ttlHops);
    DecimalInjective(e.observedOrganisms, f.observedOrganisms);
    DecimalInjective(TimestampMillis(e.sentAt), TimestampMillis(f.sentAt));
    JoinInjective(e.observedThreats, f.observedThreats);
  }

  /** Without that the text is ambiguous: a separator inside a field, or an empty threat, makes different
      envelopes share it. */
  lemma AmbiguousPayloads(e: Envelope)
    ensures var bar := e.(sender := PeerRegistration("a|b", "c", "d"));
            var rab := e.(sender := PeerRegistration("a", "b|c", "d"));
            bar != rab && SigningPayload(bar) == SigningPayload(rab)
    ensures var one := e.(observedThreats := ["x,y"]);
            var two := e.(observedThreats := ["x", "y"]);
            one != two && SigningPayload(one) == SigningPayload(two)
    ensures var none := e.(observedThreats := []);
            var empty := e.(observedThreats := [""]);
            none != empty && SigningPayload(none) == SigningPayload(empty)
  {
    var bar := e.(sender := PeerRegistration("a|b", "c", "d"));
    var rab := e.(sender := PeerRegistration("a", "b|c", "d"));
    assert "a|b" + "|" + "c" + "|" == "a" + "|" + "b|c" + "|";
    assert UnsignedTail(bar) == UnsignedTail(rab);
    JoinTwo();
  }

  lemma JoinTwo()
    ensures Join(["x,y"], ",") == Join(["x", "y"], ",") == "x,y"
    ensures Join([], ",") == Join([""], ",") == ""
  {
    assert ["x", "y"][1..] == ["y"];
  }
}
