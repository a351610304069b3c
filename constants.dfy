/**
 * The reply catalogue of constants/constants.go: ErrorConstants maps a code
 * to its message. Codes 1 to 8 are the parameter errors of the eight
 * commands, each carrying that command's usage line.
 */
module Constants {
  const InvalidInput := "Invalid Input"
  const ParamsPrefix := "Invalid parameters - "
  const WrongTypeTag := "WRONGTYPE"
  const WrongType := WrongTypeTag + " Operation against a key holding the wrong kind of value"
  const NotIdentified := "Not Identified"

  /** The command named by parameter-error code 1 to 8. */
  function Verb(code: int): (v: string)
    requires 1 <= code <= 8
    ensures 3 <= |v| <= 6 && forall i :: 0 <= i < |v| ==> 'A' <= v[i] <= 'Z'
  {
    if code == 1 then "SET"
    else if code == 2 then "GET"
    else if code == 3 then "DEL"
    else if code == 4 then "TTL"
    else if code == 5 then "EXPIRE"
    else if code == 6 then "ZADD"
    else if code == 7 then "ZRANGE"
    else "ZRANK"
  }

  /** The arguments part of the usage line of code 1 to 8. */
  function Arguments(code: int): string
    requires 1 <= code <= 8
  {
    if code == 1 then "key value [expiration EX seconds|PX milliseconds]"
    else if code == 2 || code == 4 then "key"
    else if code == 3 then "key [key ...]"
    else if code == 5 then "key seconds"
    else if code == 6 then "key score member [score member ...]"
    else if code == 7 then "key start stop [WITHSCORES]"
    else "key member"
  }

  function Usage(code: int): string
    requires 1 <= code <= 8
  {
    Verb(code) + " " + Arguments(code)
  }

  /**
   * ErrorConstants (lines 3-26): code 0 is the invalid-input reply, codes 1
   * to 8 a parameter error naming the command, code 9 the wrong-type reply,
   * and every other code "Not Identified".
   */
  function ErrorConstants(code: int): (msg: string)
    ensures (0 <= code <= 9) <==> msg != NotIdentified
    ensures code == 0 ==> msg == InvalidInput
    ensures code == 9 ==> msg == WrongType
    ensures 1 <= code <= 8 ==> |ParamsPrefix| < |msg| && msg[..|ParamsPrefix|] == ParamsPrefix
    ensures 1 <= code <= 8 ==> msg[|ParamsPrefix|..] == Usage(code)
  {
    var msg := if code == 0 then InvalidInput
      else if 1 <= code <= 8 then ParamsPrefix + Usage(code)
      else if code == 9 then WrongType
      else NotIdentified;
    assert msg != NotIdentified <== 0 <= code <= 9 by {
      if 0 <= code <= 9 {
        assert msg[0] != NotIdentified[0];
      }
    }
    assert 1 <= code <= 8 ==> msg[|ParamsPrefix|..] == Usage(code);
    msg
  }

  lemma VerbsDistinct(a: int, b: int)
    requires 1 <= a <= 8 && 1 <= b <= 8 && a != b
    ensures Verb(a) != Verb(b)
  {
  }

  /** Each usage line is told apart by its verb, which ends at the first space. */
  lemma UsageDistinct(a: int, b: int)
    requires 1 <= a <= 8 && 1 <= b <= 8 && a != b
    ensures Usage(a) != Usage(b)
  {
    var va, vb := Verb(a), Verb(b);
    if |va| < |vb| {
      assert Usage(a)[|va|] == ' ' && Usage(b)[|va|] == vb[|va|] != ' ';
    } else if |vb| < |va| {
      assert Usage(b)[|vb|] == ' ' && Usage(a)[|vb|] == va[|vb|] != ' ';
    } else {
      VerbsDistinct(a, b);
      var i :| 0 <= i < |va| && va[i] != vb[i];
      assert Usage(a)[i] == va[i] && Usage(b)[i] == vb[i];
    }
  }

  /** The ten defined codes have ten different messages (lines 4-24). */
  lemma ErrorConstantsDistinct(a: int, b: int)
    requires 0 <= a <= 9 && 0 <= b <= 9 && a != b
    ensures ErrorConstants(a) != ErrorConstants(b)
  {
    if 1 <= a <= 8 && 1 <= b <= 8 {
      UsageDistinct(a, b);
      assert (ParamsPrefix + Usage(a))[|ParamsPrefix|..] == Usage(a);
      assert (ParamsPrefix + Usage(b))[|ParamsPrefix|..] == Usage(b);
    } else if a == 9 || b == 9 {
      assert WrongType[0] == WrongTypeTag[0] == 'W';
      assert ErrorConstants(a)[0] != ErrorConstants(b)[0];
    } else {
      assert |InvalidInput| < |ParamsPrefix|;
    }
  }
}
