/** String comparisons of misc.c that the AT channel uses. */
module AtStrings {

  /** strStartsWith: walks both strings while neither has ended. */
  method StrStartsWith(line: string, prefix: string) returns (result: bool)
    ensures result <==> prefix <= line
  {
    var i := 0;
    while i < |line| && i < |prefix|
      invariant i <= |line| && i <= |prefix|
      invariant prefix[..i] == line[..i]
    {
      if line[i] != prefix[i] {
        return false;
      }
      i := i + 1;
    }
    result := i == |prefix|;
  }

  /** Whether line starts with one of the entries of a prefix table. */
  predicate StartsWithAny(line: string, table: seq<string>)
  {
    exists i :: 0 <= i < |table| && table[i] <= line
  }

  /** The table scan of isFinalResponseError, isFinalResponseSuccess and isSMSUnsolicited. */
  method MatchesTable(line: string, table: seq<string>) returns (result: bool)
    ensures result <==> StartsWithAny(line, table)
  {
    for i := 0 to |table|
      invariant forall k :: 0 <= k < i ==> !(table[k] <= line)
    {
      var found := StrStartsWith(line, table[i]);
      if found {
        return true;
      }
    }
    result := false;
  }

  // 3GPP TS 27.007 Annex B
  const FINAL_ERRORS: seq<string> :=
    ["ERROR", "+CMS ERROR:", "+CME ERROR:", "NO CARRIER", "NO ANSWER", "NO DIALTONE"]
  const FINAL_SUCCESSES: seq<string> := ["OK", "CONNECT"]
  // first lines of two-line unsolicited results
  const SMS_UNSOLICITEDS: seq<string> := ["+CMT:", "+CDS:", "+CBM:"]

  /** Which lines end a command, with which result, and which announce an SMS PDU. */
  lemma TablesAre(line: string)
    ensures StartsWithAny(line, FINAL_SUCCESSES) <==> "OK" <= line || "CONNECT" <= line
    ensures StartsWithAny(line, FINAL_ERRORS) <==>
      || "ERROR" <= line || "+CMS ERROR:" <= line || "+CME ERROR:" <= line
      || "NO CARRIER" <= line || "NO ANSWER" <= line || "NO DIALTONE" <= line
    ensures StartsWithAny(line, SMS_UNSOLICITEDS) <==> "+CMT:" <= line || "+CDS:" <= line || "+CBM:" <= line
  {
    assert "OK" <= line ==> FINAL_SUCCESSES[0] <= line;
    assert "CONNECT" <= line ==> FINAL_SUCCESSES[1] <= line;
    assert "ERROR" <= line ==> FINAL_ERRORS[0] <= line;
    assert "+CMS ERROR:" <= line ==> FINAL_ERRORS[1] <= line;
    assert "+CME ERROR:" <= line ==> FINAL_ERRORS[2] <= line;
    assert "NO CARRIER" <= line ==> FINAL_ERRORS[3] <= line;
    assert "NO ANSWER" <= line ==> FINAL_ERRORS[4] <= line;
    assert "NO DIALTONE" <= line ==> FINAL_ERRORS[5] <= line;
    assert "+CMT:" <= line ==> SMS_UNSOLICITEDS[0] <= line;
    assert "+CDS:" <= line ==> SMS_UNSOLICITEDS[1] <= line;
    assert "+CBM:" <= line ==> SMS_UNSOLICITEDS[2] <= line;
  }
}
