/** Values that tests/fixtures.json records from the JavaScript original, derived here from the specification. */
module Fixtures {
  import opened Machine
  import opened Modular
  import opened Cohort
  import opened Rollout

  lemma OneMore(s: string, c: char, p: int)
    requires Polynomial(s) == p
    ensures Polynomial(s + [c]) == p * 31 + c as int
  {
    assert (s + [c])[..|s|] == s;
  }

  lemma HashOfHello()
    ensures Hash("hello") == 99162322
  {
    OneMore("", 'h', 0);
    assert "" + ['h'] == "h";
    OneMore("h", 'e', 104);
    assert "h" + ['e'] == "he";
    OneMore("he", 'l', 3325);
    assert "he" + ['l'] == "hel";
    OneMore("hel", 'l', 103183);
    assert "hel" + ['l'] == "hell";
    OneMore("hell", 'o', 3198781);
    assert "hell" + ['o'] == "hello";
  }

  lemma PolynomialOfMobil()
    ensures Polynomial("mobil") == 104068131
  {
    OneMore("", 'm', 0);
    assert "" + ['m'] == "m";
    OneMore("m", 'o', 109);
    assert "m" + ['o'] == "mo";
    OneMore("mo", 'b', 3490);
    assert "mo" + ['b'] == "mob";
    OneMore("mob", 'i', 108288);
    assert "mob" + ['i'] == "mobi";
    OneMore("mobi", 'l', 3357033);
    assert "mobi" + ['l'] == "mobil";
  }

  lemma PolynomialOfMobileBus()
    ensures Polynomial("mobile-bus") == 2979382331400917
  {
    PolynomialOfMobil();
    OneMore("mobil", 'e', 104068131);
    assert "mobil" + ['e'] == "mobile";
    OneMore("mobile", '-', 3226112162);
    assert "mobile" + ['-'] == "mobile-";
    OneMore("mobile-", 'b', 100009477067);
    assert "mobile-" + ['b'] == "mobile-b";
    OneMore("mobile-b", 'u', 3100293789175);
    assert "mobile-b" + ['u'] == "mobile-bu";
    OneMore("mobile-bu", 's', 96109107464542);
    assert "mobile-bu" + ['s'] == "mobile-bus";
  }

  /** A hash that leaves the 32-bit range on the way. */
  lemma HashOfBusiness()
    ensures Hash("mobile-business") == -1531098997
  {
    PolynomialOfMobileBus();
    OneMore("mobile-bus", 'i', 2979382331400917);
    assert "mobile-bus" + ['i'] == "mobile-busi";
    OneMore("mobile-busi", 'n', 92360852273428532);
    assert "mobile-busi" + ['n'] == "mobile-busin";
    OneMore("mobile-busin", 'e', 2863186420476284602);
    assert "mobile-busin" + ['e'] == "mobile-busine";
    OneMore("mobile-busine", 's', 88758779034764822763);
    assert "mobile-busine" + ['s'] == "mobile-busines";
    OneMore("mobile-busines", 's', 2751522150077709505768);
    assert "mobile-busines" + ['s'] == "mobile-business";
  }

  /** The positions recorded for the nil bundle, from its two recorded hashes. */
  lemma RecordedPositions(bundleId: string)
    requires Hash(bundleId + ":multiplier") == 1856177467 && Hash(bundleId + ":offset") == -687490803
    ensures Position(bundleId, 1) == 851 && Position(bundleId, 2) == 268 && Position(bundleId, 50) == 284
    ensures Position(bundleId, 500) == 934 && Position(bundleId, 1000) == 434
  {
    RecordedMultiplier(bundleId);
    InverseIsUnique(InverseMultiplier(bundleId), 417, 753, N);
  }

  lemma RecordedMultiplier(bundleId: string)
    requires Hash(bundleId + ":multiplier") == 1856177467
    ensures Multiplier(bundleId) == 753
  {
    assert Gcd(753, 1000) == Gcd(1000, 753) == Gcd(753, 247) == Gcd(247, 12) == Gcd(12, 7) == Gcd(7, 5) == Gcd(5, 2)
           == Gcd(2, 1) == Gcd(1, 0);
  }
}
