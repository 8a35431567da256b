/** Buying upload credit (services/app/adapters/mam.py): one threshold purchase, then
    a bounded loop that spends a bonus surplus. Amounts of points are real numbers. */
module UploadCredit {
  import opened Outcomes

  /** A number as it may be reported: absent, or any floating-point value. */
  datatype Number = Missing | Finite(value: real) | PosInf | NegInf | NaN

  type Gigabytes = n: nat | 50 <= n <= 100_000 witness 50

  datatype Amount = Max | Fixed(gb: Gigabytes)

  /** The account as last loaded; `uploaded` and `downloaded` are in gigabytes. */
  datatype Payload =
    | Unusable
    | Payload(seedbonus: Number, ratio: Number, uploaded: Option<real>, downloaded: Option<real>)

  datatype Command = Command(
    uploadRatio: bool, ratioBelow: real, ratioBuy: Amount,
    uploadBuffer: bool, bufferBelow: real, bufferBuy: Amount,
    uploadBonus: bool, bonusAbove: int, bonusBuy: Amount)

  /** The store's answer to a purchase. */
  datatype Reply = Reply(accepted: bool, seedbonus: Number)

  /** A purchase that was sent, with the balance it was decided on. */
  datatype Purchase = Purchase(threshold: bool, amount: Amount, balance: real, reply: Reply)

  const UPLOAD_PURCHASE_CAP := 12

  function Cost(amount: Amount): real {
    if amount.Max? then 25000.0 else (amount.gb * 500) as real
  }

  function CreditAmount(payload: Payload, command: Command): Option<Amount> {
    if payload.Unusable? then None
    else if command.uploadRatio && payload.ratio.Finite? && payload.ratio.value < command.ratioBelow
    then Some(command.ratioBuy)
    else if command.uploadBuffer && payload.uploaded.Some? && payload.downloaded.Some?
            && payload.uploaded.value - payload.downloaded.value < command.bufferBelow then Some(command.bufferBuy)
    else None
  }

  function Balance(payload: Payload): Number {
    if payload.Unusable? then Missing else payload.seedbonus
  }

  /** nxt >= points, as floating-point numbers compare */
  predicate NotLower(next: Number, points: real) {
    next.PosInf? || (next.Finite? && next.value >= points)
  }

  // ---------------------------------------------------------------- what a run may do

  predicate Covered(p: Purchase) {
    Cost(p.amount) <= p.balance
  }

  /** Nothing follows a purchase that was refused, bought the maximum or reported no
      finite balance; what follows is decided on the balance it reported, and after a
      bonus purchase only on a lower one. */
  predicate Follows(p: Purchase, next: Purchase) {
    && p.reply.accepted && p.amount.Fixed?
    && p.reply.seedbonus == Finite(next.balance)
    && (!p.threshold ==> next.balance < p.balance)
    && !next.threshold
  }

  ghost predicate Chained(log: seq<Purchase>) {
    && (forall i :: 0 <= i < |log| ==> Covered(log[i]))
    && (forall i :: 0 <= i < |log| - 1 ==> Follows(log[i], log[i + 1]))
  }

  predicate WantsThreshold(payload: Payload, command: Command) {
    && CreditAmount(payload, command).Some?
    && payload.seedbonus.Finite? && Cost(CreditAmount(payload, command).value) <= payload.seedbonus.value
  }

  predicate WantsBonus(balance: Number, command: Command) {
    && command.uploadBonus && balance.Finite?
    && command.bonusAbove as real < balance.value && Cost(command.bonusBuy) <= balance.value
  }

  /** The balance known after a purchase, when the rules go on at all. */
  function Onward(p: Purchase): Option<Number> {
    if !p.reply.accepted || p.amount.Max? then None
    else if p.reply.seedbonus.Missing? then None
    else if !p.threshold && NotLower(p.reply.seedbonus, p.balance) then None
    else Some(p.reply.seedbonus)
  }

  /** The purchases of the bonus loop, from a known balance. */
  function BonusRun(balance: Number, command: Command, server: nat -> Reply, sent: nat, left: nat): seq<Purchase>
    decreases left
  {
    if left == 0 || !WantsBonus(balance, command) then []
    else
      var p := Purchase(false, command.bonusBuy, balance.value, server(sent));
      if Onward(p).None? then [p] else [p] + BonusRun(Onward(p).value, command, server, sent + 1, left - 1)
  }

  /** All purchases sent for a payload. Replies are numbered by the purchases sent
      before them. */
  function Purchases(payload: Payload, command: Command, server: nat -> Reply): seq<Purchase> {
    if WantsThreshold(payload, command) then
      var p := Purchase(true, CreditAmount(payload, command).value, payload.seedbonus.value, server(0));
      if Onward(p).None? then [p] else [p] + BonusRun(Onward(p).value, command, server, 1, UPLOAD_PURCHASE_CAP)
    else BonusRun(Balance(payload), command, server, 0, UPLOAD_PURCHASE_CAP)
  }

  predicate AnyAccepted(log: seq<Purchase>) {
    exists i :: 0 <= i < |log| && log[i].reply.accepted
  }

  method BuyUpload(payload: Payload, command: Command, server: nat -> Reply)
    returns (purchased: bool, log: seq<Purchase>)
    ensures log == Purchases(payload, command, server)
    ensures purchased <==> AnyAccepted(log)
  {
    var points := Balance(payload);
    var amount := CreditAmount(payload, command);
    if amount.Some? && points.Finite? && points.value >= Cost(amount.value) {
      var bought := server(0);
      var p := Purchase(true, amount.value, points.value, bought);
      if !bought.accepted {
        return false, [p];
      }
      assert [p][0].reply.accepted;
      if bought.seedbonus.Missing? || amount.value.Max? {
        return true, [p];
      }
      var _, more := SpendBonus(bought.seedbonus, command, server, 1, UPLOAD_PURCHASE_CAP);
      assert ([p] + more)[0] == p;
      return true, [p] + more;
    }
    purchased, log := SpendBonus(points, command, server, 0, UPLOAD_PURCHASE_CAP);
  }

  /** What was sent, and what the rule sends from here on, make up the whole run. */
  ghost predicate Remaining(
      all: seq<Purchase>, log: seq<Purchase>, points: Number, command: Command, server: nat -> Reply, sent: nat,
      left: nat)
  {
    log + BonusRun(points, command, server, sent, left) == all
  }

  lemma SendNext(
      all: seq<Purchase>, log: seq<Purchase>, points: Number, command: Command, server: nat -> Reply, sent: nat,
      left: nat)
    requires Remaining(all, log, points, command, server, sent, left)
    ensures left == 0 || !WantsBonus(points, command) ==> log == all
    ensures left > 0 && WantsBonus(points, command) ==>
              var p := Purchase(false, command.bonusBuy, points.value, server(sent));
              if Onward(p).None? then log + [p] == all
              else Remaining(all, log + [p], Onward(p).value, command, server, sent + 1, left - 1)
  {
    if left > 0 && WantsBonus(points, command) {
      var p := Purchase(false, command.bonusBuy, points.value, server(sent));
      if Onward(p).Some? {
        var rest := BonusRun(Onward(p).value, command, server, sent + 1, left - 1);
        assert log + ([p] + rest) == log + [p] + rest;
      }
    } else {
      assert log + [] == log;
    }
  }

  lemma AcceptedGrows(log: seq<Purchase>, p: Purchase)
    ensures AnyAccepted(log + [p]) <==> AnyAccepted(log) || p.reply.accepted
  {
    var longer := log + [p];
    assert longer[|log|] == p && forall i :: 0 <= i < |log| ==> longer[i] == log[i];
  }

  /** The bonus rule: at most `cap` purchases, each from the last reported balance. */
  method SpendBonus(start: Number, command: Command, server: nat -> Reply, sent: nat, cap: nat)
    returns (purchased: bool, log: seq<Purchase>)
    ensures log == BonusRun(start, command, server, sent, cap)
    ensures purchased <==> AnyAccepted(log)
  {
    purchased, log := false, [];
    if !command.uploadBonus {
      return;
    }
    var points := start;
    ghost var all := BonusRun(start, command, server, sent, cap);
    for k := 0 to cap
      invariant |log| == k
      invariant purchased <==> AnyAccepted(log)
      invariant Remaining(all, log, points, command, server, sent + k, cap - k)
    {
      SendNext(all, log, points, command, server, sent + k, cap - k);
      if !points.Finite? || points.value <= command.bonusAbove as real || points.value < Cost(command.bonusBuy) {
        return;
      }
      var p := Purchase(false, command.bonusBuy, points.value, server(sent + k));
      AcceptedGrows(log, p);
      log := log + [p];
      purchased := purchased || p.reply.accepted;
      if !p.reply.accepted || p.amount.Max? || p.reply.seedbonus.Missing? || NotLower(p.reply.seedbonus, points.value) {
        return;
      }
      points := p.reply.seedbonus;
    }
    SendNext(all, log, points, command, server, sent + cap, 0);
  }

  /** What every purchase of the bonus rule satisfies. */
  ghost predicate BonusPurchase(p: Purchase, command: Command) {
    !p.threshold && p.amount == command.bonusBuy && WantsBonus(Finite(p.balance), command)
  }

  lemma ChainedCons(p: Purchase, rest: seq<Purchase>)
    requires Covered(p) && Chained(rest) && (rest != [] ==> Follows(p, rest[0]))
    ensures Chained([p] + rest)
  {
    var log := [p] + rest;
    forall i | 0 <= i < |log| - 1 ensures Follows(log[i], log[i + 1]) {
      if i > 0 {
        assert log[i] == rest[i - 1] && log[i + 1] == rest[i];
      }
    }
  }

  lemma {:induction false} BonusRunIsSafe(balance: Number, command: Command, server: nat -> Reply, sent: nat, left: nat)
    ensures var log := BonusRun(balance, command, server, sent, left);
            && Chained(log) && |log| <= left
            && (forall i :: 0 <= i < |log| ==> BonusPurchase(log[i], command))
            && (log != [] ==> balance == Finite(log[0].balance))
    decreases left
  {
    if left > 0 && WantsBonus(balance, command) {
      var p := Purchase(false, command.bonusBuy, balance.value, server(sent));
      if Onward(p).Some? {
        BonusRunIsSafe(Onward(p).value, command, server, sent + 1, left - 1);
        ChainedCons(p, BonusRun(Onward(p).value, command, server, sent + 1, left - 1));
      }
    }
  }

  /** Over every pattern of replies: at most one threshold purchase, which comes first
      and only when its rule asks for it, then at most twelve bonus purchases above
      the ceiling; each costs no more than a balance known to be finite, and nothing
      follows a purchase that was refused, maximal or of unknown effect. */
  lemma PurchasesAreSafe(payload: Payload, command: Command, server: nat -> Reply)
    ensures var log := Purchases(payload, command, server);
            && Chained(log)
            && |log| <= (if WantsThreshold(payload, command) then 1 else 0) + 12
            && (log != [] ==> Balance(payload) == Finite(log[0].balance))
            && (forall i :: 0 <= i < |log| ==>
                  if i == 0 && WantsThreshold(payload, command)
                  then log[i].threshold && log[i].amount == CreditAmount(payload, command).value
                  else BonusPurchase(log[i], command))
  {
    if WantsThreshold(payload, command) {
      var p := Purchase(true, CreditAmount(payload, command).value, payload.seedbonus.value, server(0));
      if Onward(p).Some? {
        BonusRunIsSafe(Onward(p).value, command, server, 1, UPLOAD_PURCHASE_CAP);
        ChainedCons(p, BonusRun(Onward(p).value, command, server, 1, UPLOAD_PURCHASE_CAP));
      }
    } else {
      BonusRunIsSafe(Balance(payload), command, server, 0, UPLOAD_PURCHASE_CAP);
    }
  }

  // ---------------------------------------------------------------- the spending bound

  /** The fixed amounts sent, at five hundred points a gigabyte. */
  function Spent(log: seq<Purchase>): real {
    if log == [] then 0.0
    else (if log[0].amount.Max? then 0.0 else (500 * log[0].amount.gb) as real) + Spent(log[1..])
  }

  /** Every accepted purchase that reports a balance reports what is really left. */
  ghost predicate Accurate(log: seq<Purchase>) {
    forall i :: 0 <= i < |log| && log[i].reply.accepted && log[i].reply.seedbonus.Finite? ==>
      log[i].reply.seedbonus.value == log[i].balance - Cost(log[i].amount)
  }

  /** With accurate reports, the fixed-amount purchases sent never cost more together
      than the starting balance, whether or not the last one was acknowledged. */
  lemma {:induction false} SpendingIsBounded(log: seq<Purchase>)
    requires Chained(log) && Accurate(log) && log != []
    ensures Spent(log) <= log[0].balance
  {
    assert Covered(log[0]);
    if |log| > 1 {
      assert Follows(log[0], log[1]);
      var rest := log[1..];
      assert forall i :: 0 <= i < |rest| - 1 ==> Follows(rest[i], rest[i + 1]) by {
        forall i | 0 <= i < |rest| - 1 ensures Follows(rest[i], rest[i + 1]) {
          assert Follows(log[i + 1], log[i + 2]);
        }
      }
      SpendingIsBounded(rest);
    } else {
      assert log[1..] == [];
    }
  }

  // ---------------------------------------------------------------- the rules, spelled out

  /** The ratio rule decides before the buffer rule, and neither without its numbers. */
  lemma CreditSpelled(payload: Payload, command: Command)
    ensures payload.Unusable? ==> CreditAmount(payload, command) == None
    ensures payload.Payload? ==>
              var ratioRule := command.uploadRatio && payload.ratio.Finite? && payload.ratio.value < command.ratioBelow;
              var bufferRule := command.uploadBuffer && payload.uploaded.Some? && payload.downloaded.Some?
                                && payload.uploaded.value < payload.downloaded.value + command.bufferBelow;
              && (ratioRule ==> CreditAmount(payload, command) == Some(command.ratioBuy))
              && (!ratioRule && bufferRule ==> CreditAmount(payload, command) == Some(command.bufferBuy))
              && (!ratioRule && !bufferRule ==> CreditAmount(payload, command) == None)
  {
  }

  /** Five hundred points a gigabyte, and twenty-five thousand for all there is room for,
      out of a balance that is known and finite. */
  ghost predicate Pays(balance: Number, amount: Amount) {
    match amount
    case Max => exists points :: balance == Finite(points) && 25000.0 <= points
    case Fixed(gb) => exists points :: balance == Finite(points) && 500.0 * gb as real <= points
  }

  /** The bonus rule goes on from this balance. */
  ghost predicate Surplus(balance: Number, command: Command) {
    && command.uploadBonus && Pays(balance, command.bonusBuy)
    && exists points :: balance == Finite(points) && command.bonusAbove as real < points
  }

  lemma SurplusSpelled(balance: Number, command: Command)
    ensures Surplus(balance, command) <==> WantsBonus(balance, command)
  {
    if balance.Finite? {
      assert balance == Finite(balance.value);
    }
  }

  lemma ThresholdSpelled(payload: Payload, command: Command)
    ensures WantsThreshold(payload, command) <==>
            && payload.Payload? && CreditAmount(payload, command).Some?
            && Pays(payload.seedbonus, CreditAmount(payload, command).value)
  {
    if payload.Payload? && payload.seedbonus.Finite? {
      assert payload.seedbonus == Finite(payload.seedbonus.value);
    }
  }

  /** After this purchase another may follow: it was accepted, was not for the maximum,
      reported a balance, and, as a bonus purchase, not one that is as high as before. */
  ghost predicate GoesOn(p: Purchase) {
    && p.reply.accepted && p.amount != Max && p.reply.seedbonus != Missing
    && (!p.threshold ==>
          p.reply.seedbonus != PosInf && !exists points :: p.reply.seedbonus == Finite(points) && p.balance <= points)
  }

  lemma GoesOnSpelled(p: Purchase)
    ensures GoesOn(p) <==> Onward(p).Some?
    ensures GoesOn(p) ==> Onward(p).value == p.reply.seedbonus
  {
    if p.reply.seedbonus.Finite? {
      assert p.reply.seedbonus == Finite(p.reply.seedbonus.value);
    }
  }

  /** Purchase `i` of the bonus loop has a reason, and so has whether another follows. */
  ghost predicate BonusAt(
      log: seq<Purchase>, i: nat, balance: Number, command: Command, server: nat -> Reply, sent: nat, left: nat)
    requires i < |log|
  {
    && !log[i].threshold && log[i].amount == command.bonusBuy && log[i].reply == server(sent + i)
    && Finite(log[i].balance) == (if i == 0 then balance else log[i - 1].reply.seedbonus)
    && Pays(Finite(log[i].balance), log[i].amount) && Surplus(Finite(log[i].balance), command)
    && (i + 1 < |log| <==> i + 1 < left && GoesOn(log[i]) && Surplus(log[i].reply.seedbonus, command))
  }

  ghost predicate BonusSpelled(
      log: seq<Purchase>, balance: Number, command: Command, server: nat -> Reply, sent: nat, left: nat)
  {
    && |log| <= left
    && (log == [] <==> left == 0 || !Surplus(balance, command))
    && (forall i: nat :: i < |log| ==> BonusAt(log, i, balance, command, server, sent, left))
  }

  lemma {:induction false} BonusRunSpelled(
      balance: Number, command: Command, server: nat -> Reply, sent: nat, left: nat)
    ensures BonusSpelled(BonusRun(balance, command, server, sent, left), balance, command, server, sent, left)
    decreases left
  {
    SurplusSpelled(balance, command);
    if left > 0 && WantsBonus(balance, command) {
      var p := Purchase(false, command.bonusBuy, balance.value, server(sent));
      GoesOnSpelled(p);
      if Onward(p).Some? {
        BonusRunSpelled(p.reply.seedbonus, command, server, sent + 1, left - 1);
        BonusCons(p, BonusRun(p.reply.seedbonus, command, server, sent + 1, left - 1), command, server, sent, left);
      }
    }
  }

  lemma BonusCons(p: Purchase, rest: seq<Purchase>, command: Command, server: nat -> Reply, sent: nat, left: nat)
    requires left > 0 && BonusSpelled(rest, p.reply.seedbonus, command, server, sent + 1, left - 1)
    requires p == Purchase(false, command.bonusBuy, p.balance, server(sent))
    requires GoesOn(p) && Surplus(Finite(p.balance), command)
    ensures BonusSpelled([p] + rest, Finite(p.balance), command, server, sent, left)
  {
    var log := [p] + rest;
    forall i: nat | i < |log| ensures BonusAt(log, i, Finite(p.balance), command, server, sent, left) {
      if i > 0 {
        assert BonusAt(rest, i - 1, p.reply.seedbonus, command, server, sent + 1, left - 1);
      }
    }
  }

  /** The whole run: the threshold purchase is made exactly when a rule asks for an amount
      that the balance pays, and the bonus loop runs, for at most twelve purchases, unless
      that purchase ended everything. */
  lemma PurchasesSpelled(payload: Payload, command: Command, server: nat -> Reply)
    ensures var log := Purchases(payload, command, server);
            var asked := CreditAmount(payload, command);
            if payload.Payload? && asked.Some? && Pays(payload.seedbonus, asked.value) then
              && log != [] && log[0].threshold && log[0].amount == asked.value
              && Finite(log[0].balance) == payload.seedbonus && log[0].reply == server(0)
              && (if GoesOn(log[0])
                  then BonusSpelled(log[1..], log[0].reply.seedbonus, command, server, 1, 12) else |log| == 1)
            else BonusSpelled(log, if payload.Payload? then payload.seedbonus else Missing, command, server, 0, 12)
  {
    ThresholdSpelled(payload, command);
    if WantsThreshold(payload, command) {
      var p := Purchase(true, CreditAmount(payload, command).value, payload.seedbonus.value, server(0));
      GoesOnSpelled(p);
      if Onward(p).Some? {
        BonusRunSpelled(Onward(p).value, command, server, 1, 12);
        assert Purchases(payload, command, server)[1..] == BonusRun(Onward(p).value, command, server, 1, 12);
      }
    } else {
      BonusRunSpelled(Balance(payload), command, server, 0, 12);
    }
  }
}
