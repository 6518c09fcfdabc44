/** `parse_asp`: reading the next move out of the answer-set solver's reply.
    The reply is cut into space-separated tokens, the tokens that mention
    `safe_move` are kept, duplicates are counted, and the two fields between
    the parentheses of the first kept token are returned, as text. */
module Reply {
  import opened Strings

  /** What `parse_asp` returns: the two coordinate fields, or the
      `IndexError` Python raises when there is no safe move
      (`moves_arr[0]`) or the move has no second field (`coord_arr[1]`). */
  datatype Outcome = Coords(x: string, y: string) | NoSafeMove | MissingField

  /** `response.replace("\r\n", " ").split(" ")` */
  function Tokens(response: string): (r: seq<string>)
    ensures |r| >= 1
  {
    Split(ReplaceCrlf(response), ' ')
  }

  /** No token holds a space or a line break "\r\n". */
  lemma TokensHaveNoSeparator(response: string)
    ensures forall k :: 0 <= k < |Tokens(response)| ==> ' ' !in Tokens(response)[k]
    ensures forall k, i :: 0 <= k < |Tokens(response)| ==> !HasCrlfAt(Tokens(response)[k], i)
  {
    var s := ReplaceCrlf(response);
    SplitPiecesFree(s, ' ');
    ReplaceCrlfRemovesAll(response);
    forall k, i | 0 <= k < |Tokens(response)| ensures !HasCrlfAt(Tokens(response)[k], i) {
      SplitPieceInside(s, ' ', k);
      assert !HasCrlfAt(s, SplitPieceStart(s, ' ', k) + i);
    }
  }

  /** Where piece k of a split starts in the original string. */
  function SplitPieceStart(s: string, c: char, k: nat): (r: nat)
    requires k < |Split(s, c)|
    decreases s
  {
    if s == [] then 0
    else if s[0] == c then (if k == 0 then 0 else 1 + SplitPieceStart(s[1..], c, k - 1))
    else if k == 0 then 0 else 1 + SplitPieceStart(s[1..], c, k)
  }

  /** Piece k of a split lies inside the original string at its start. */
  lemma {:induction false} SplitPieceInside(s: string, c: char, k: nat)
    requires k < |Split(s, c)|
    ensures SplitPieceStart(s, c, k) + |Split(s, c)[k]| <= |s|
    ensures Split(s, c)[k] == s[SplitPieceStart(s, c, k)..SplitPieceStart(s, c, k) + |Split(s, c)[k]|]
  {
    if s != [] {
      var rest := Split(s[1..], c);
      if s[0] == c {
        if k > 0 {
          SplitPieceInside(s[1..], c, k - 1);
        }
      } else if k == 0 {
        SplitPieceInside(s[1..], c, 0);
      } else {
        SplitPieceInside(s[1..], c, k);
      }
    }
  }

  /** `arr[arr.find(start):arr.find(")") + 1:]` */
  function Cut(t: string, start: char): (r: string)
    ensures |r| <= |t| && forall k :: 0 <= k < |r| ==> r[k] in t
  {
    Slice(t, Find(t, start), Find(t, ')') + 1)
  }

  /** The cut of every token that mentions `key`, in token order. */
  function Picks(tokens: seq<string>, key: string, start: char): seq<string>
  {
    if tokens == [] then []
    else
      var t := tokens[|tokens| - 1];
      Picks(tokens[..|tokens| - 1], key, start) + (if Contains(t, key) then [Cut(t, start)] else [])
  }

  lemma {:induction false} PicksAppend(a: seq<string>, b: seq<string>, key: string, start: char)
    ensures Picks(a + b, key, start) == Picks(a, key, start) + Picks(b, key, start)
  {
    if b != [] {
      PicksAppend(a, b[..|b| - 1], key, start);
      assert (a + b)[..|a + b| - 1] == a + b[..|b| - 1];
    } else {
      assert a + b == a;
    }
  }

  /** Nothing is picked exactly when no token mentions the key. */
  lemma {:induction false} PicksEmpty(tokens: seq<string>, key: string, start: char)
    ensures Picks(tokens, key, start) == [] <==> forall k :: 0 <= k < |tokens| ==> !Contains(tokens[k], key)
  {
    if tokens != [] {
      var init := tokens[..|tokens| - 1];
      PicksEmpty(init, key, start);
      forall k | 0 <= k < |init| ensures init[k] == tokens[k] {
      }
    }
  }

  /** The first pick is cut from the first token that mentions the key. */
  lemma PicksFirst(tokens: seq<string>, key: string, start: char, i: nat)
    requires i < |tokens| && Contains(tokens[i], key)
    requires forall k :: 0 <= k < i ==> !Contains(tokens[k], key)
    ensures |Picks(tokens, key, start)| >= 1 && Picks(tokens, key, start)[0] == Cut(tokens[i], start)
  {
    var before, rest := tokens[..i], tokens[i + 1..];
    assert tokens == before + [tokens[i]] + rest;
    PicksEmpty(before, key, start);
    PicksAppend(before + [tokens[i]], rest, key, start);
    PicksAppend(before, [tokens[i]], key, start);
    assert [tokens[i]][..0] == [];
  }

  // ---------------------------------------------------------------------
  // move_dict

  /** `move_dict`: how many times each move occurs. */
  function Tally(moves: seq<string>): (r: map<string, nat>)
    ensures forall m :: m in r ==> r[m] >= 1
  {
    if moves == [] then map[]
    else
      var d, m := Tally(moves[..|moves| - 1]), moves[|moves| - 1];
      if m !in d then d[m := 1] else d[m := d[m] + 1]
  }

  /** The keys of the count dictionary are the moves, and each count is the
      number of times that move occurs. */
  lemma {:induction false} TallyCounts(moves: seq<string>)
    ensures forall m :: m in Tally(moves) <==> m in moves
    ensures forall m :: m in Tally(moves) ==> Tally(moves)[m] == multiset(moves)[m]
  {
    if moves != [] {
      var init, last := moves[..|moves| - 1], moves[|moves| - 1];
      TallyCounts(init);
      assert moves == init + [last];
      assert multiset(moves) == multiset(init) + multiset{last};
    }
  }

  /** The sum of the values of a dictionary. */
  ghost function Total(d: map<string, nat>): nat
    decreases |d|
  {
    if d == map[] then 0
    else
      var k :| k in d;
      assert |d - {k}| < |d| by { MapRemoveSize(d, k); }
      d[k] + Total(d - {k})
  }

  lemma MapRemoveSize(d: map<string, nat>, k: string)
    requires k in d
    ensures |d - {k}| == |d| - 1
  {
    assert (d - {k}).Keys == d.Keys - {k};
  }

  /** Any key may be taken out first. */
  lemma {:induction false} TotalRemove(d: map<string, nat>, k: string)
    requires k in d
    ensures Total(d) == d[k] + Total(d - {k})
    decreases |d|
  {
    var j :| j in d && Total(d) == d[j] + Total(d - {j});
    if j != k {
      MapRemoveSize(d, j);
      MapRemoveSize(d, k);
      TotalRemove(d - {j}, k);
      TotalRemove(d - {k}, j);
      assert d - {j} - {k} == d - {k} - {j};
    }
  }

  /** The counts add up to the number of moves. */
  lemma {:induction false} TallyTotal(moves: seq<string>)
    ensures Total(Tally(moves)) == |moves|
  {
    if moves != [] {
      var init, m := moves[..|moves| - 1], moves[|moves| - 1];
      var d := Tally(init);
      TallyTotal(init);
      if m !in d {
        TotalRemove(d[m := 1], m);
        assert d[m := 1] - {m} == d;
      } else {
        TotalRemove(d[m := d[m] + 1], m);
        TotalRemove(d, m);
        assert d[m := d[m] + 1] - {m} == d - {m};
      }
    }
  }

  // ---------------------------------------------------------------------
  // The result

  /** The fields between "(" and ")" of one move, split on ",". */
  function ParseMove(move: string): (r: Outcome)
    ensures !r.NoSafeMove?
    ensures r.Coords? ==> ',' !in r.x && ',' !in r.y
  {
    var coords := Split(Slice(move, Find(move, '(') + 1, Find(move, ')')), ',');
    SplitPiecesFree(Slice(move, Find(move, '(') + 1, Find(move, ')')), ',');
    if |coords| < 2 then MissingField else Coords(coords[0], coords[1])
  }

  /** The moves `parse_asp` collects from a reply. */
  function SafeMoves(response: string): seq<string>
  {
    Picks(Tokens(response), "safe_move", 's')
  }

  /** What `parse_asp` returns for the first reply. */
  function ParseAsp(response: string): (r: Outcome)
    ensures r.NoSafeMove? <==> SafeMoves(response) == []
    ensures r.Coords? ==> ',' !in r.x && ',' !in r.y
  {
    var moves := SafeMoves(response);
    if moves == [] then NoSafeMove else ParseMove(moves[0])
  }

  /** The index error of `moves_arr[0]` happens exactly when no token
      mentions "safe_move". */
  lemma ParseAspNoSafeMove(response: string)
    ensures ParseAsp(response) == NoSafeMove <==>
      forall k :: 0 <= k < |Tokens(response)| ==> !Contains(Tokens(response)[k], "safe_move")
  {
    PicksEmpty(Tokens(response), "safe_move", 's');
  }

  /** A move written by the solver as "safe_move(a,b)" reads back as its two
      fields, unchanged: no conversion between 1- and 0-based indices. */
  lemma ParseMoveText(a: string, b: string)
    requires ',' !in a && ')' !in a && ',' !in b && ')' !in b
    ensures Cut("safe_move(" + a + "," + b + ")", 's') == "safe_move(" + a + "," + b + ")"
    ensures ParseMove("safe_move(" + a + "," + b + ")") == Coords(a, b)
  {
    var t := "safe_move(" + a + "," + b + ")";
    assert t[0] == 's';
    FindFirst(t, ')', |t| - 1);
    FindFirst(t, '(', 9);
    assert t[10..|t| - 1] == a + [','] + b;
    SplitCut(a, b, ',');
    SplitFree(b, ',');
  }

  /** Find returns the index of the character when it does not occur before. */
  lemma FindFirst(s: string, c: char, i: nat)
    requires i < |s| && s[i] == c && c !in s[..i]
    ensures Find(s, c) == i
  {
    assert s[i] in s;
    assert forall k :: 0 <= k < i ==> s[k] == s[..i][k];
    assert forall k :: 0 <= k < Find(s, c) ==> s[k] == s[..Find(s, c)][k];
  }

  /** When the first token that mentions "safe_move" is "safe_move(a,b)",
      the result is (a, b). */
  lemma ParseAspFirstMove(response: string, i: nat, a: string, b: string)
    requires i < |Tokens(response)| && Tokens(response)[i] == "safe_move(" + a + "," + b + ")"
    requires forall k :: 0 <= k < i ==> !Contains(Tokens(response)[k], "safe_move")
    requires ',' !in a && ')' !in a && ',' !in b && ')' !in b
    ensures ParseAsp(response) == Coords(a, b)
  {
    var t := Tokens(response)[i];
    assert t[..9] == "safe_move";
    PicksFirst(Tokens(response), "safe_move", 's', i);
    ParseMoveText(a, b);
  }

  /** The loop that collects the cut of every token mentioning `key`
      (`moves_arr` for "safe_move", `moves2_arr` for "maybe_safe"). */
  method CollectMoves(tokens: seq<string>, key: string, start: char) returns (moves: seq<string>)
    ensures moves == Picks(tokens, key, start)
  {
    moves := [];
    for i := 0 to |tokens|
      invariant moves == Picks(tokens[..i], key, start)
    {
      assert tokens[..i + 1][..i] == tokens[..i];
      if Contains(tokens[i], key) {
        moves := moves + [Cut(tokens[i], start)];
      }
    }
    assert tokens[..|tokens|] == tokens;
  }

  /** The loop that builds `move_dict`. */
  method CountMoves(moves: seq<string>) returns (moveDict: map<string, nat>)
    ensures moveDict == Tally(moves)
  {
    moveDict := map[];
    for i := 0 to |moves|
      invariant moveDict == Tally(moves[..i])
    {
      assert moves[..i + 1][..i] == moves[..i];
      var move := moves[i];
      if move !in moveDict {
        moveDict := moveDict[move := 1];
      } else {
        moveDict := moveDict[move := moveDict[move] + 1];
      }
    }
    assert moves[..|moves|] == moves;
  }

  /** `parse_asp(response, response2)`. The second reply is tokenised and its
      "maybe_safe" moves are collected, but neither takes part in the
      result; `move_dict` is built and left unused, and is returned here so
      that its contents can be stated. */
  method ParseAspReplies(response: string, response2: string) returns (r: Outcome, moveDict: map<string, nat>)
    ensures r == ParseAsp(response)
    ensures moveDict == Tally(SafeMoves(response))
  {
    var responseArr := Tokens(response);
    var response2Arr := Tokens(response2);
    var movesArr := CollectMoves(responseArr, "safe_move", 's');
    var moves2Arr := CollectMoves(response2Arr, "maybe_safe", 'm');
    moveDict := CountMoves(movesArr);
    if |movesArr| == 0 {
      r := NoSafeMove;
    } else {
      var move := movesArr[0];
      var coordStart := Find(move, '(') + 1;
      var coordEnd := Find(move, ')');
      var coordArr := Split(Slice(move, coordStart, coordEnd), ',');
      if |coordArr| < 2 {
        r := MissingField;
      } else {
        r := Coords(coordArr[0], coordArr[1]);
      }
    }
  }
}
