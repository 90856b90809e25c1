/** Recognising a keyword at the head of a text: the text is accepted when some accepting keyword is
  * within the threshold of some prefix, and no rejecting keyword is closer. */
module KeywordFilter {
  import opened EditDistance

  /** An entry of the filter list; acc is 1 to accept and 0 to reject. */
  datatype Keyword = Keyword(acc: int, cmpStr: string)

  /** How far a keyword is from the prefix of the given length. */
  function Apart(kw: Keyword, str: string, len: nat): nat
    requires len <= |str|
  {
    Distance(SAME, kw.cmpStr, str[..len])
  }

  /** Keyword k carries the given flag and is at distance d from the prefix of the given length. */
  ghost predicate Match(filters: seq<Keyword>, k: nat, acc: int, str: string, len: nat, d: int) {
    k < |filters| && filters[k].acc == acc && len <= |str| && Apart(filters[k], str, len) == d
  }

  /** No prefix, of any length, is closer than d to any of the first n keywords with this flag. */
  ghost predicate NoneCloser(filters: seq<Keyword>, n: nat, acc: int, str: string, d: int) {
    forall k: nat, len: nat, e: int :: k < n && Match(filters, k, acc, str, len, e) ==> d <= e
  }

  /** A match by the first keyword with this flag that comes as close as d, at its shortest such prefix. */
  ghost predicate FirstMatch(filters: seq<Keyword>, k: nat, acc: int, str: string, len: nat, d: int) {
    && Match(filters, k, acc, str, len, d)
    && NoneCloser(filters, k, acc, str, d + 1)
    && forall l: nat :: l < len ==> !Match(filters, k, acc, str, l, d)
  }

  /** Some accepting keyword is within the threshold of some prefix, and that prefix is at least as
    * close as any prefix is to any rejecting keyword. */
  ghost predicate Accepts(filters: seq<Keyword>, str: string, threshold: int) {
    exists k: nat, len: nat, d: int ::
      Match(filters, k, 1, str, len, d) && d <= threshold && NoneCloser(filters, |filters|, 0, str, d)
  }

  /** Acceptance in terms of distances alone. */
  lemma AcceptsIs(filters: seq<Keyword>, str: string, threshold: int)
    ensures Accepts(filters, str, threshold) <==>
              exists k: nat, len: nat ::
                && k < |filters| && filters[k].acc == 1 && len <= |str|
                && Distance(SAME, filters[k].cmpStr, str[..len]) <= threshold
                && forall l: nat, n: nat :: l < |filters| && filters[l].acc == 0 && n <= |str| ==>
                     Distance(SAME, filters[k].cmpStr, str[..len]) <= Distance(SAME, filters[l].cmpStr, str[..n])
  {
    hide Distance;
    if Accepts(filters, str, threshold) {
      var k: nat, len: nat, d: int :|
        Match(filters, k, 1, str, len, d) && d <= threshold && NoneCloser(filters, |filters|, 0, str, d);
      forall l: nat, n: nat | l < |filters| && filters[l].acc == 0 && n <= |str|
        ensures d <= Distance(SAME, filters[l].cmpStr, str[..n])
      {
        assert Match(filters, l, 0, str, n, Distance(SAME, filters[l].cmpStr, str[..n]));
      }
      assert k < |filters| && filters[k].acc == 1 && len <= |str| && Distance(SAME, filters[k].cmpStr, str[..len]) == d;
    }
    if k: nat, len: nat :|
      && k < |filters| && filters[k].acc == 1 && len <= |str|
      && Distance(SAME, filters[k].cmpStr, str[..len]) <= threshold
      && forall l: nat, n: nat :: l < |filters| && filters[l].acc == 0 && n <= |str| ==>
           Distance(SAME, filters[k].cmpStr, str[..len]) <= Distance(SAME, filters[l].cmpStr, str[..n])
    {
      var d: int := Distance(SAME, filters[k].cmpStr, str[..len]);
      assert Match(filters, k, 1, str, len, d) && NoneCloser(filters, |filters|, 0, str, d);
    }
  }

  /** A first match in terms of distances alone: earlier keywords with the flag are further away from every
    * prefix, and no shorter prefix is at this distance from the keyword itself. */
  lemma FirstMatchIs(filters: seq<Keyword>, k: nat, acc: int, str: string, len: nat, d: int)
    ensures FirstMatch(filters, k, acc, str, len, d) <==>
              && k < |filters| && filters[k].acc == acc && len <= |str| && Distance(SAME, filters[k].cmpStr, str[..len]) == d
              && (forall l: nat, n: nat :: l < k && filters[l].acc == acc && n <= |str| ==> Distance(SAME, filters[l].cmpStr, str[..n]) > d)
              && (forall n: nat :: n < len ==> Distance(SAME, filters[k].cmpStr, str[..n]) != d)
  {
    hide Distance;
    if FirstMatch(filters, k, acc, str, len, d) {
      forall l: nat, n: nat | l < k && filters[l].acc == acc && n <= |str| ensures Distance(SAME, filters[l].cmpStr, str[..n]) > d {
        assert Match(filters, l, acc, str, n, Distance(SAME, filters[l].cmpStr, str[..n]));
      }
      forall n: nat | n < len ensures Distance(SAME, filters[k].cmpStr, str[..n]) != d {
        assert !Match(filters, k, acc, str, n, d);
      }
    }
  }

  /** A prefix whose length is off by more than the threshold is too far away. */
  lemma OutsideWindow(kw: Keyword, str: string, threshold: int, len: nat)
    requires len <= |str| && (len < |kw.cmpStr| - threshold || len > |kw.cmpStr| + threshold)
    ensures Apart(kw, str, len) > threshold
  {
    hide Cell;
    Bounds(SAME, kw.cmpStr, str[..len], |kw.cmpStr|, len);
  }

  /** The inner loop: the closest prefix of one keyword, and the shortest length that attains it. */
  method ClosestPrefix(kw: Keyword, str: string, threshold: int, offset0: nat) returns (tmpMin: int, tmpMinOffset: nat)
    requires threshold <= |kw.cmpStr| && |kw.cmpStr| + threshold + 1 <= |str|
    ensures tmpMin <= threshold + 1
    ensures forall len: nat :: len <= |str| ==> tmpMin <= Apart(kw, str, len)
    ensures tmpMin <= threshold ==> tmpMinOffset <= |str| && Apart(kw, str, tmpMinOffset) == tmpMin
    ensures tmpMin > threshold ==> tmpMinOffset == offset0
    ensures tmpMin <= threshold ==> forall len: nat :: len < tmpMinOffset && len <= |str| ==> Apart(kw, str, len) > tmpMin
  {
    hide Apart;
    var minLen, maxLen := |kw.cmpStr| - threshold, |kw.cmpStr| + threshold + 1;
    tmpMin, tmpMinOffset := threshold + 1, offset0;
    var i := minLen;
    while i <= maxLen
      invariant minLen <= i
      invariant tmpMin <= threshold + 1
      invariant forall len: nat :: minLen <= len < i && len <= maxLen ==> tmpMin <= Apart(kw, str, len)
      invariant tmpMin <= threshold ==> minLen <= tmpMinOffset < i && tmpMinOffset <= maxLen && Apart(kw, str, tmpMinOffset) == tmpMin
      invariant tmpMin > threshold ==> tmpMinOffset == offset0
      invariant tmpMin <= threshold ==> forall len: nat :: minLen <= len < tmpMinOffset ==> Apart(kw, str, len) > tmpMin
    {
      var ed := Measure(kw, str, i);
      if ed <= threshold {
        if tmpMin > ed {
          tmpMin, tmpMinOffset := ed, i;
        }
      }
      i := i + 1;
    }
    forall len: nat | len <= |str| && (len < minLen || len > maxLen) ensures Apart(kw, str, len) > threshold {
      OutsideWindow(kw, str, threshold, len);
    }
  }

  method Measure(kw: Keyword, str: string, len: nat) returns (ed: nat)
    requires len <= |str|
    ensures ed == Apart(kw, str, len)
  {
    ed := EditDistanceS(kw.cmpStr, str[..len]);
  }

  /** The running minimum over the first n keywords with one flag. */
  ghost predicate Running(filters: seq<Keyword>, n: nat, acc: int, str: string, threshold: int, best: int, offset: nat) {
    && n <= |filters|
    && best <= threshold + 1
    && NoneCloser(filters, n, acc, str, best)
    && (best <= threshold ==> exists k: nat :: k < n && FirstMatch(filters, k, acc, str, offset, best))
  }

  lemma RunningStart(filters: seq<Keyword>, acc: int, str: string, threshold: int)
    ensures Running(filters, 0, acc, str, threshold, threshold + 1, 0)
  {
  }

  lemma RunningNext(filters: seq<Keyword>, n: nat, acc: int, str: string, threshold: int, best: int, offset: nat,
                    tmpMin: int, tmpMinOffset: nat)
    requires Running(filters, n, acc, str, threshold, best, offset) && n < |filters|
    requires tmpMin <= threshold + 1 && forall len: nat :: len <= |str| ==> tmpMin <= Apart(filters[n], str, len)
    requires tmpMin <= threshold ==> tmpMinOffset <= |str| && Apart(filters[n], str, tmpMinOffset) == tmpMin
    requires tmpMin <= threshold ==> forall len: nat :: len < tmpMinOffset && len <= |str| ==> Apart(filters[n], str, len) > tmpMin
    ensures filters[n].acc == acc && best > tmpMin ==> Running(filters, n + 1, acc, str, threshold, tmpMin, tmpMinOffset)
    ensures !(filters[n].acc == acc && best > tmpMin) ==> Running(filters, n + 1, acc, str, threshold, best, offset)
  {
    hide Apart;
    if filters[n].acc == acc && best > tmpMin {
      assert FirstMatch(filters, n, acc, str, tmpMinOffset, tmpMin);
    }
  }

  /** isAccpted. */
  method IsAccepted(filters: seq<Keyword>, str: string, threshold: int) returns (accepted: bool, fitLen: nat)
    requires forall k :: 0 <= k < |filters| ==>
               threshold <= |filters[k].cmpStr| && |filters[k].cmpStr| + threshold + 1 <= |str|
    ensures accepted <==> Accepts(filters, str, threshold)
    ensures accepted ==> exists k: nat, d: int ::
              FirstMatch(filters, k, 1, str, fitLen, d) && d <= threshold
              && NoneCloser(filters, |filters|, 1, str, d) && NoneCloser(filters, |filters|, 0, str, d)
    ensures !accepted ==>
              || (fitLen == 0 && NoneCloser(filters, |filters|, 0, str, threshold + 1) && NoneCloser(filters, |filters|, 1, str, threshold + 1))
              || exists k: nat, d: int ::
                   FirstMatch(filters, k, 0, str, fitLen, d) && d <= threshold
                   && NoneCloser(filters, |filters|, 0, str, d) && NoneCloser(filters, |filters|, 1, str, d + 1)
  {
    hide Apart;
    var accMin, rejMin := threshold + 1, threshold + 1;
    var accMinOffset, rejMinOffset, tmpMinOffset := 0, 0, 0;
    RunningStart(filters, 1, str, threshold);
    RunningStart(filters, 0, str, threshold);
    for p := 0 to |filters|
      invariant Running(filters, p, 1, str, threshold, accMin, accMinOffset)
      invariant Running(filters, p, 0, str, threshold, rejMin, rejMinOffset)
    {
      var tmpMin;
      tmpMin, tmpMinOffset := ClosestPrefix(filters[p], str, threshold, tmpMinOffset);
      RunningNext(filters, p, 1, str, threshold, accMin, accMinOffset, tmpMin, tmpMinOffset);
      RunningNext(filters, p, 0, str, threshold, rejMin, rejMinOffset, tmpMin, tmpMinOffset);
      if filters[p].acc == 1 && accMin > tmpMin {
        accMinOffset, accMin := tmpMinOffset, tmpMin;
      } else if filters[p].acc == 0 && rejMin > tmpMin {
        rejMinOffset, rejMin := tmpMinOffset, tmpMin;
      }
    }
    fitLen :=
      if accMin <= rejMin then (if accMin <= threshold then accMinOffset else 0)
      else (if rejMin <= threshold then rejMinOffset else 0);
    accepted := accMin <= rejMin && accMin <= threshold;
    Verdict(filters, str, threshold, accMin, accMinOffset, rejMin, rejMinOffset);
  }

  lemma Verdict(filters: seq<Keyword>, str: string, threshold: int, accMin: int, accMinOffset: nat, rejMin: int, rejMinOffset: nat)
    requires Running(filters, |filters|, 1, str, threshold, accMin, accMinOffset)
    requires Running(filters, |filters|, 0, str, threshold, rejMin, rejMinOffset)
    ensures accMin <= rejMin && accMin <= threshold <==> Accepts(filters, str, threshold)
    ensures accMin <= threshold ==> exists k: nat :: FirstMatch(filters, k, 1, str, accMinOffset, accMin)
    ensures rejMin <= threshold ==> exists k: nat :: FirstMatch(filters, k, 0, str, rejMinOffset, rejMin)
    ensures accMin <= rejMin ==> NoneCloser(filters, |filters|, 0, str, accMin)
    ensures rejMin < accMin ==> NoneCloser(filters, |filters|, 1, str, rejMin + 1)
  {
    hide Apart, Match;
    if accMin <= rejMin && accMin <= threshold {
      var k: nat :| k < |filters| && FirstMatch(filters, k, 1, str, accMinOffset, accMin);
    }
    if Accepts(filters, str, threshold) {
      var k: nat, len: nat, d: int :| Match(filters, k, 1, str, len, d) && d <= threshold && NoneCloser(filters, |filters|, 0, str, d);
      assert k < |filters| by { MatchIndex(filters, k, 1, str, len, d); }
    }
  }

  lemma MatchIndex(filters: seq<Keyword>, k: nat, acc: int, str: string, len: nat, d: int)
    requires Match(filters, k, acc, str, len, d)
    ensures k < |filters|
  {
  }
}
