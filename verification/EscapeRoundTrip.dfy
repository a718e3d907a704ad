/** How far the escaper is lossless: decoding its four entities undoes it exactly on the
    bodies that hold none of those entities to begin with. */
module EscapeRoundTrip {
  import opened ContentSandbox
  import opened Options
  import opened Text

  /** The protected character whose entity stands at the front of `s`. */
  function EntityAt(s: string): Option<char> {
    if Entity('<') <= s then Some('<')
    else if Entity('>') <= s then Some('>')
    else if Entity('[') <= s then Some('[')
    else if Entity(']') <= s then Some(']')
    else None
  }

  /** Decode the four entities in one left-to-right scan. */
  function Unescaped(s: string): string {
    if s == "" then ""
    else match EntityAt(s)
      case Some(c) => [c] + Unescaped(s[|Entity(c)|..])
      case None => [s[0]] + Unescaped(s[1..])
  }

  lemma EntityShape(c: char)
    requires c in "<>[]"
    ensures Entity(c) == "&" + Entity(c)[1..]
    ensures |Entity(c)| >= 4 && '&' !in Entity(c)[1..] && Plain(Entity(c)[1..])
  {
    assert c == '<' || c == '>' || c == '[' || c == ']';
    var w := Entity(c)[1..];
    assert forall i :: 0 <= i < |w| ==> w[i] != '&' && w[i] != '<' && w[i] != '>' && w[i] != '[' && w[i] != ']';
  }

  lemma EntityAtFront(c: char, x: string)
    requires c in "<>[]"
    ensures EntityAt(Entity(c) + x) == Some(c)
  {
    var s := Entity(c) + x;
    assert s[1] == Entity(c)[1] && s[3] == Entity(c)[3] && s[0] == '&';
    assert Entity(c) <= s;
    assert c == '<' || c == '>' || c == '[' || c == ']';
    assert Entity('<') <= s ==> s[1] == 'l';
    assert Entity('>') <= s ==> s[1] == 'g';
    assert Entity('[') <= s ==> s[1] == '#' && s[3] == '1';
    assert Entity(']') <= s ==> s[1] == '#' && s[3] == '3';
  }

  lemma NoEntityAtFront(c: char, x: string)
    requires c != '&'
    ensures EntityAt([c] + x) == None
    ensures Unescaped([c] + x) == [c] + Unescaped(x)
  {
    var s := [c] + x;
    forall p | p in "<>[]" ensures !(Entity(p) <= s) {
      EntityShape(p);
      assert s[0] == c && Entity(p)[0] == '&';
    }
    assert '<' in "<>[]" && '>' in "<>[]" && '[' in "<>[]" && ']' in "<>[]";
    assert s[1..] == x;
  }

  lemma DecodeOneCharacter(c: char, x: string)
    requires c != '&'
    ensures Unescaped(Entity(c) + x) == [c] + Unescaped(x)
  {
    hide Entity, EntityAt;
    if c in "<>[]" {
      EntityShape(c);
      EntityAtFront(c, x);
      assert (Entity(c) + x)[|Entity(c)|..] == x;
    } else {
      OthersStandForThemselves(c);
      NoEntityAtFront(c, x);
    }
  }

  lemma OthersStandForThemselves(c: char)
    requires c !in "<>[]"
    ensures Entity(c) == [c]
  {
    assert '<' in "<>[]" && '>' in "<>[]" && '[' in "<>[]" && ']' in "<>[]";
  }

  /** Decoding the entity form of a text that holds no `&` gives the text back. */
  lemma {:induction false} UnescapedEntities(q: string, x: string)
    requires '&' !in q
    ensures Unescaped(Entities(q) + x) == q + Unescaped(x)
  {
    if q == "" {
      assert Entities(q) + x == x;
    } else {
      UnescapedEntities(q[1..], x);
      DecodeOneCharacter(q[0], Entities(q[1..]) + x);
      ConcatAssociates(Entity(q[0]), Entities(q[1..]), x);
      ConcatAssociates([q[0]], q[1..], Unescaped(x));
      assert q == [q[0]] + q[1..];
    }
  }

  /** A pass moves no entity: an entity stands before the rest of its output exactly when
      it stood before the rest of its input. */
  lemma PassKeepsEntityTails(c: char, s: string, pat: string)
    requires c in "<>[]" && Protectable(pat)
    ensures Entity(c)[1..] <= s <==> Entity(c)[1..] <= ReplaceAll(s, pat, Entities(pat))
    ensures Entity(c)[1..] <= s ==>
              ReplaceAll(s, pat, Entities(pat))[|Entity(c)| - 1..] == ReplaceAll(s[|Entity(c)| - 1..], pat, Entities(pat))
  {
    var w := Entity(c)[1..];
    EntityShape(c);
    EntitiesArePlain(pat);
    if w <= ReplaceAll(s, pat, Entities(pat)) {
      PrefixComesFromInput(s, pat, Entities(pat), w);
    }
    if w <= s {
      assert s == w + s[|w|..];
      PassKeepsPrefix(w, s[|w|..], pat, Entities(pat));
    }
  }

  lemma EntityAtStandsThere(s: string)
    ensures EntityAt(s).Some? ==>
              var c := EntityAt(s).value;
              c in "<>[]" && Entity(c) <= s && 0 < |Entity(c)| <= |s|
  {
  }

  lemma ProtectableHoldsNoAmpersand(pat: string)
    requires Protectable(pat)
    ensures pat != "" && '&' !in pat
  {
  }

  /** One pass is invisible to the decoder. */
  lemma {:induction false} UnescapedIgnoresPass(s: string, pat: string)
    requires Protectable(pat)
    ensures Unescaped(ReplaceAll(s, pat, Entities(pat))) == Unescaped(s)
    decreases |s|
  {
    hide Protectable, Entity, Entities, EntityAt;
    ProtectableHoldsNoAmpersand(pat);
    var out := ReplaceAll(s, pat, Entities(pat));
    if s == "" {
    } else if pat <= s {
      UnescapedIgnoresPass(s[|pat|..], pat);
      UnescapedEntities(pat, ReplaceAll(s[|pat|..], pat, Entities(pat)));
      PrefixWithoutEntity(pat, s[|pat|..]);
      assert s == pat + s[|pat|..];
    } else {
      StepPastOneCharacter(s, pat);
      EntityAtStandsThere(s);
      assert out == [s[0]] + ReplaceAll(s[1..], pat, Entities(pat));
      match EntityAt(s)
      case Some(c) =>
        UnescapedIgnoresPass(s[|Entity(c)|..], pat);
      case None =>
        UnescapedIgnoresPass(s[1..], pat);
        assert out[1..] == ReplaceAll(s[1..], pat, Entities(pat));
    }
  }

  lemma {:induction false} PrefixWithoutEntity(q: string, x: string)
    requires '&' !in q
    ensures Unescaped(q + x) == q + Unescaped(x)
  {
    if q == "" {
      assert q + x == x;
    } else {
      assert q + x == [q[0]] + (q[1..] + x);
      assert q + Unescaped(x) == [q[0]] + (q[1..] + Unescaped(x));
      PrefixWithoutEntity(q[1..], x);
      NoEntityAtFront(q[0], q[1..] + x);
    }
  }

  /** Two texts with one first character, whose rests agree on what follows an ampersand, agree on
      what starts with it. */
  lemma SameHead(x: char, s: string, out: string, e: string, w: string, tail: string)
    requires e == "&" + w && (w <= s <==> w <= out) && (w <= s ==> out[|w|..] == tail)
    ensures e <= [x] + s <==> e <= [x] + out
    ensures e <= [x] + s ==> ([x] + out)[|e|..] == tail && ([x] + s)[|e|..] == s[|w|..]
  {
    forall t: string ensures e <= [x] + t <==> x == '&' && w <= t {
      assert e[0] == '&' && e[1..] == w;
      if e <= [x] + t {
        assert ([x] + t)[..|e|] == e && ([x] + t)[..|e|][1..] == t[..|w|];
      }
      if x == '&' && w <= t {
        assert [x] + t == e + t[|w|..];
      }
    }
    if e <= [x] + s {
      assert ([x] + out)[|e|..] == out[|w|..];
    }
  }

  lemma StepKeepsEntity(s: string, pat: string, c: char)
    requires Protectable(pat) && s != "" && !(pat <= s) && c in "<>[]"
    requires pat != ""
    ensures var out := ReplaceAll(s, pat, Entities(pat));
            && (Entity(c) <= s <==> Entity(c) <= out)
            && (Entity(c) <= s ==> out[|Entity(c)|..] == ReplaceAll(s[|Entity(c)|..], pat, Entities(pat)))
  {
    hide Protectable, Entity, Entities, Plain;
    EntityShape(c);
    PassKeepsEntityTails(c, s[1..], pat);
    var w := Entity(c)[1..];
    assert s == [s[0]] + s[1..];
    SameHead(s[0], s[1..], ReplaceAll(s[1..], pat, Entities(pat)), Entity(c), w,
             if w <= s[1..] then ReplaceAll(s[1..][|w|..], pat, Entities(pat)) else "");
  }

  lemma StepPastOneCharacter(s: string, pat: string)
    requires Protectable(pat) && s != "" && !(pat <= s)
    ensures var out := ReplaceAll(s, pat, Entities(pat));
            && EntityAt(out) == EntityAt(s)
            && (EntityAt(s).Some? ==>
                  var n := |Entity(EntityAt(s).value)|;
                  n <= |out| && out[n..] == ReplaceAll(s[n..], pat, Entities(pat)))
  {
    hide Protectable, Entities, ReplaceAll, Entity;
    assert '<' in "<>[]" && '>' in "<>[]" && '[' in "<>[]" && ']' in "<>[]";
    ProtectableHoldsNoAmpersand(pat);
    StepKeepsEntity(s, pat, '<');
    StepKeepsEntity(s, pat, '>');
    StepKeepsEntity(s, pat, '[');
    StepKeepsEntity(s, pat, ']');
  }

  lemma {:induction false} UnescapedIgnoresPasses(s: string, rules: seq<Rule>)
    requires forall r :: r in rules ==> Protective(r)
    ensures Unescaped(RunPasses(s, rules)) == Unescaped(s)
    decreases |rules|
  {
    if rules != [] {
      assert Protective(rules[0]);
      UnescapedIgnoresPass(s, rules[0].pat);
      UnescapedIgnoresPasses(ReplaceAll(s, rules[0].pat, rules[0].rep), rules[1..]);
    }
  }

  /** The body holds none of the four entity texts. */
  ghost predicate EntityFree(s: string) {
    forall c :: c in "<>[]" ==> !Contains(s, Entity(c))
  }

  lemma NothingHoldsNoEntity(s: string)
    requires s == ""
    ensures EntityFree(s)
  {
    forall c | c in "<>[]" ensures !Contains(s, Entity(c)) { EntityShape(c); }
  }

  lemma FrontEntityIsHeld(s: string, c: char)
    requires EntityAt(s) == Some(c)
    ensures !EntityFree(s) && 4 <= |Entity(c)| <= |s|
  {
    hide Entity;
    EntityAtStandsThere(s);
    EntityShape(c);
    assert Contains(s, Entity(c));
  }

  lemma NoFrontEntity(s: string)
    requires s != "" && EntityAt(s) == None
    ensures EntityFree(s) <==> EntityFree(s[1..])
  {
    forall c | c in "<>[]" ensures Contains(s, Entity(c)) <==> Contains(s[1..], Entity(c)) {
      assert c == '<' || c == '>' || c == '[' || c == ']';
    }
  }

  /** Decoding shortens exactly the texts that hold an entity. */
  lemma {:induction false} DecodingShortens(s: string)
    ensures |Unescaped(s)| <= |s|
    ensures EntityFree(s) ==> Unescaped(s) == s
    ensures !EntityFree(s) ==> |Unescaped(s)| < |s|
  {
    hide Entity, EntityAt, EntityFree;
    if s == "" {
      NothingHoldsNoEntity(s);
    } else {
      match EntityAt(s)
      case Some(c) =>
        FrontEntityIsHeld(s, c);
        DecodingShortens(s[|Entity(c)|..]);
      case None =>
        NoFrontEntity(s);
        DecodingShortens(s[1..]);
        assert s == [s[0]] + s[1..];
    }
  }

  /** Decoding an escaped body gives the body decoded; so it gives the body back if and only
      if the body held none of the four entity texts. */
  lemma EscapeIsLosslessExactlyWhenEntityFree(t: Tables, body: string)
    ensures Unescaped(Escaped(t, body)) == Unescaped(body)
    ensures Unescaped(Escaped(t, body)) == body <==> EntityFree(body)
  {
    RulesAreProtective(t);
    UnescapedIgnoresPasses(body, Rules(t));
    DecodingShortens(body);
  }

  /** No decoder at all recovers every body: each protected text and its own escaped form
      are two bodies with one image. */
  lemma EscapeIsNotInjective(t: Tables, q: string)
    requires q in Protected(t)
    ensures Escaped(t, q) != q && Escaped(t, Escaped(t, q)) == Escaped(t, q)
  {
    EscapedIsIdempotent(t, q);
    NoProtectedTextSurvives(t, q, q, 0);
    assert Contains(q, q);
  }
}
