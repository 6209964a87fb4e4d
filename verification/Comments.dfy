/** Rule comments: how they are built, stored as user data of a rule, and searched for. */
module Comments {
  predicate IsAlphanumeric(c: char) {
    'a' <= c <= 'z' || 'A' <= c <= 'Z' || '0' <= c <= '9'
  }

  function Strip(s: string): (r: string)
    ensures |r| <= |s|
    ensures forall c :: c in r <==> c in s && IsAlphanumeric(c)
  {
    if s == [] then []
    else
      var init, last := s[..|s| - 1], s[|s| - 1];
      assert s == init + [last];
      if IsAlphanumeric(last) then Strip(init) + [last] else Strip(init)
  }

  method StripLoop(s: string) returns (result: string)
    ensures result == Strip(s)
  {
    result := "";
    for i := 0 to |s|
      invariant result == Strip(s[..i])
    {
      assert s[..i + 1][..i] == s[..i];
      var b := s[i];
      if ('a' <= b && b <= 'z') || ('A' <= b && b <= 'Z') || ('0' <= b && b <= '9') {
        result := result + [b];
      }
    }
    assert s[..|s|] == s;
  }

  /** One byte is kept exactly if it is one of the three ranges; with `StripAppend` this is all of it. */
  lemma StripOne(c: char)
    ensures Strip([c]) == if '0' <= c <= '9' || 'A' <= c <= 'Z' || 'a' <= c <= 'z' then [c] else []
  {
    assert [c][..0] == [];
  }

  predicate OccursAt(s: string, t: string, i: nat) {
    i + |t| <= |s| && s[i..i + |t|] == t
  }

  predicate Contains(s: string, t: string) {
    exists i :: 0 <= i <= |s| && OccursAt(s, t, i)
  }

  /** `Contains` is the search for a substring. */
  lemma ContainsIff(s: string, t: string)
    ensures Contains(s, t) <==> exists before: string, after: string {:trigger before + t + after} ::
              s == before + t + after
  {
    if Contains(s, t) {
      var i :| 0 <= i <= |s| && OccursAt(s, t, i);
      assert s == s[..i] + t + s[i + |t|..];
    }
    if before: string, after: string :| s == before + t + after {
      assert OccursAt(s, t, |before|);
    }
  }

  /** The user data `nft` stores for a comment: a type byte, a length byte that counts the final
      NUL, the comment, NUL. */
  function UserData(comment: string): (r: string)
    ensures |r| == |comment| + 3
  {
    [0 as char, ((|comment| + 1) % 256) as char] + comment + [0 as char]
  }

  /** The texts that `net.IP` and `net.IPNet` print: digits, `a` to `f`, dot, colon, slash
      (section 2.3 of RFC 4291, section 4 of RFC 5952), at most 45 characters; or "<nil>". */
  predicate IsAddressChar(c: char) {
    '0' <= c <= '9' || 'a' <= c <= 'f' || 'A' <= c <= 'F' || c == '.' || c == ':' || c == '/'
  }

  predicate IsAddressText(s: string) {
    s == "<nil>" || (|s| <= 45 && forall c :: c in s ==> IsAddressChar(c))
  }

  function CommentOf(source: string, target: string): string {
    "r" + Strip(source + target)
  }

  /** The shape of every comment the operator writes: `r`, then alphanumerics other than `r`. */
  ghost predicate IsComment(c: string) {
    && 0 < |c| <= 112 && c[0] == 'r'
    && forall i :: 0 < i < |c| ==> c[i] != 'r' && IsAlphanumeric(c[i])
  }

  lemma CommentShape(source: string, target: string)
    requires IsAddressText(source) && IsAddressText(target)
    ensures IsComment(CommentOf(source, target))
  {
    var body := Strip(source + target);
    forall i | 0 <= i < |body| ensures body[i] != 'r' && IsAlphanumeric(body[i]) {
      assert body[i] in source + target;
      assert 'r' !in source && 'r' !in target;
    }
  }

  /** The substring search over user data finds a comment exactly when it is a prefix of the
      stored one: an `r` can only stand where the stored comment begins. */
  lemma ContainsIffPrefix(stored: string, c: string)
    requires IsComment(stored) && IsComment(c)
    ensures Contains(UserData(stored), c) <==> c <= stored
  {
    var u := UserData(stored);
    assert u[1] != 'r';
    assert forall i :: 0 <= i < |stored| ==> u[i + 2] == stored[i];
    if Contains(u, c) {
      var i :| 0 <= i <= |u| && OccursAt(u, c, i);
      assert u[i] == c[0];
      assert i == 2;
      var k := if |c| > |stored| then |stored| else 0;
      assert c[k] == u[k + 2];
      assert stored[..|c|] == u[2..2 + |c|];
    }
    if c <= stored {
      assert u[2..2 + |c|] == stored[..|c|];
      assert OccursAt(u, c, 2);
    }
  }

  lemma {:induction false} StripAppend(a: string, b: string)
    ensures Strip(a + b) == Strip(a) + Strip(b)
  {
    if b == [] {
      assert a + b == a;
    } else {
      var init, last := b[..|b| - 1], b[|b| - 1];
      assert (a + b)[..|a + b| - 1] == a + init;
      StripAppend(a, init);
    }
  }

  /** Stripping loses information: a separator leaves no trace, so for every source two networks
      that differ in where a dot stands share one comment, and a longer prefix length extends
      the comment of a shorter one. */
  lemma StripCollides(source: string, head: string, mid: string, tail: string)
    ensures CommentOf(source, head + "." + mid + tail) == CommentOf(source, head + mid + "." + tail)
    ensures CommentOf(source, head) <= CommentOf(source, head + tail)
  {
    SeparatorIsLost(source, head, mid, tail);
    assert source + (head + tail) == (source + head) + tail;
    StripAppend(source + head, tail);
  }

  lemma CollidingNetworks(source: string)
    ensures CommentOf(source, "1.10.0.0/16") == CommentOf(source, "11.0.0.0/16")
    ensures CommentOf(source, "fd00::/8") <= CommentOf(source, "fd00::/80")
  {
    assert "1" + "." + "1" + "0.0.0/16" == "1.10.0.0/16";
    assert "1" + "1" + "." + "0.0.0/16" == "11.0.0.0/16";
    StripCollides(source, "1", "1", "0.0.0/16");
    assert "fd00::/8" + "0" == "fd00::/80";
    StripCollides(source, "fd00::/8", "", "0");
  }

  lemma SeparatorIsLost(source: string, head: string, mid: string, tail: string)
    ensures Strip(source + (head + "." + mid + tail)) == Strip(source + (head + mid + "." + tail))
  {
    assert Strip(".") == "";
    assert source + (head + "." + mid + tail) == (source + head) + "." + (mid + tail);
    assert source + (head + mid + "." + tail) == (source + head + mid) + "." + tail;
    StripAppend(source + head, ".");
    StripAppend(source + head + ".", mid + tail);
    StripAppend(source + head + mid, ".");
    StripAppend(source + head + mid + ".", tail);
    StripAppend(source + head, mid);
    StripAppend(mid, tail);
  }
}
