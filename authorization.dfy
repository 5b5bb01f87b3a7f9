/**
 * The shared-secret gate that `ApplicationController` runs before every action
 * (api/app/controllers/application_controller.rb). The token is the last word
 * of the `Authorization` header as Ruby's `String#split(' ')` produces it, and
 * the request passes exactly when that word equals the configured key.
 */
module Authorization {
  import opened Wrappers
  import opened Resources

  /** The characters Ruby's awk-style `split(' ')` treats as separators. */
  predicate IsSpace(c: char)
    ensures IsSpace(c) <==> c == ' ' || '\t' <= c <= '\r'
  {
    c == ' ' || c == '\t' || c == '\n' || c == '\U{B}' || c == '\U{C}' || c == '\r'
  }

  predicate AllSpace(s: string) {
    forall k :: 0 <= k < |s| ==> IsSpace(s[k])
  }

  /** A field `split(' ')` can produce: non-empty, with no separator in it. */
  predicate IsWord(w: string) {
    w != [] && forall k :: 0 <= k < |w| ==> !IsSpace(w[k])
  }

  /** Length of the longest separator-free prefix of `s`. */
  function WordLength(s: string): (n: nat)
    ensures n <= |s|
    ensures forall k :: 0 <= k < n ==> !IsSpace(s[k])
    ensures n < |s| ==> IsSpace(s[n])
  {
    if s == [] || IsSpace(s[0]) then 0 else 1 + WordLength(s[1..])
  }

  /**
   * `s.split(' ')`: the maximal runs of non-separators, in order. Leading and
   * trailing separators and runs of them produce no empty fields.
   */
  function Words(s: string): (ws: seq<string>)
    ensures forall i :: 0 <= i < |ws| ==> IsWord(ws[i])
    decreases |s|
  {
    if s == [] then []
    else if IsSpace(s[0]) then Words(s[1..])
    else
      var n := WordLength(s);
      [s[..n]] + Words(s[n..])
  }

  /**
   * `request.headers['Authorization']&.split(' ')&.last`: no header gives nil,
   * and so does a header with no words, since `[].last` is nil.
   */
  function Token(header: Option<string>): (t: Option<string>)
    ensures header.None? ==> t.None?
    ensures t.Some? ==> IsWord(t.value)
  {
    match header
    case None => None
    case Some(h) =>
      var ws := Words(h);
      if ws == [] then None else Some(ws[|ws| - 1])
  }

  /** The check `api_key == ENV.fetch('API_KEY')`, with the configured key passed in. */
  predicate Authorized(header: Option<string>, key: string)
    ensures Authorized(header, key) ==> header.Some? && IsWord(key)
  {
    Token(header) == Some(key)
  }

  /** `render_unauthorized`: status 401 with body `{error: 'Not authorized'}`. */
  function RenderUnauthorized(): (r: Response)
    ensures r.status.Code() == 401
  {
    Response(Unauthorized, ErrorMessage("Not authorized"))
  }

  /** `h[i..j]` is the last word of `h`: a maximal word followed only by separators. */
  predicate IsLastWordSpan(h: string, i: nat, j: nat) {
    && i < j <= |h|
    && (i == 0 || IsSpace(h[i - 1]))
    && (forall k :: i <= k < j ==> !IsSpace(h[k]))
    && (forall k :: j <= k < |h| ==> IsSpace(h[k]))
  }

  // ---------------------------------------------------------------------------
  // Facts about splitting

  /** A separator splits the word list in two. */
  lemma {:induction false} WordsSplitAtSpace(a: string, c: char, b: string)
    requires IsSpace(c)
    ensures Words(a + [c] + b) == Words(a) + Words(b)
    decreases |a|
  {
    var s := a + [c] + b;
    if a == [] {
      assert s[1..] == b;
    } else if IsSpace(a[0]) {
      assert s[1..] == a[1..] + [c] + b;
      WordsSplitAtSpace(a[1..], c, b);
    } else {
      var n := WordLength(a);
      WordLengthPrefix(a, [c] + b);
      assert s == a + ([c] + b);
      assert s[..n] == a[..n];
      assert s[n..] == a[n..] + [c] + b;
      WordsSplitAtSpace(a[n..], c, b);
    }
  }

  /** The separator-free prefix of `a` stays the same when separators follow `a`. */
  lemma WordLengthPrefix(a: string, rest: string)
    requires rest != [] && IsSpace(rest[0])
    ensures WordLength(a + rest) == WordLength(a)
    decreases |a|
  {
    if a != [] && !IsSpace(a[0]) {
      assert (a + rest)[1..] == a[1..] + rest;
      WordLengthPrefix(a[1..], rest);
    } else if a == [] {
      assert a + rest == rest;
    }
  }

  lemma WordsOfWord(w: string)
    requires IsWord(w)
    ensures Words(w) == [w]
  {
    assert WordLength(w) == |w|;
    assert w[..|w|] == w;
  }

  /** A string has no words exactly when it consists of separators only. */
  lemma {:induction false} NoWordsIffAllSpace(s: string)
    ensures Words(s) == [] <==> AllSpace(s)
    decreases |s|
  {
    if s != [] {
      if IsSpace(s[0]) {
        NoWordsIffAllSpace(s[1..]);
        if AllSpace(s[1..]) {
          assert AllSpace(s) by {
            forall k | 1 <= k < |s| ensures IsSpace(s[k]) {
              assert s[k] == s[1..][k - 1];
            }
          }
        }
      }
    }
  }

  /** A word followed only by separators splits into that one word. */
  lemma WordThenSpaces(w: string, tail: string)
    requires IsWord(w) && AllSpace(tail)
    ensures Words(w + tail) == [w]
  {
    WordsOfWord(w);
    if tail == [] {
      assert w + tail == w;
    } else {
      assert w + tail == w + [tail[0]] + tail[1..];
      WordsSplitAtSpace(w, tail[0], tail[1..]);
      NoWordsIffAllSpace(tail[1..]);
    }
  }

  /** Conversely, a last-word span determines the token. */
  lemma LastWordFromSpan(h: string, i: nat, j: nat)
    requires IsLastWordSpan(h, i, j)
    ensures Words(h) != [] && Words(h)[|Words(h)| - 1] == h[i..j]
  {
    var w, tail := h[i..j], h[j..];
    assert IsWord(w);
    assert AllSpace(tail) by {
      forall k | 0 <= k < |tail| ensures IsSpace(tail[k]) {
        assert tail[k] == h[j + k];
      }
    }
    WordThenSpaces(w, tail);
    if i == 0 {
      assert h == w + tail;
    } else {
      assert h == h[..i - 1] + [h[i - 1]] + (w + tail);
      WordsSplitAtSpace(h[..i - 1], h[i - 1], w + tail);
    }
  }

  /** Length of `h` without its trailing separators. */
  function TrimmedEnd(h: string): (j: nat)
    ensures j <= |h|
    ensures forall k :: j <= k < |h| ==> IsSpace(h[k])
    ensures j > 0 ==> !IsSpace(h[j - 1])
    ensures j == 0 <==> AllSpace(h)
  {
    if h == [] || !IsSpace(h[|h| - 1]) then |h|
    else
      var p := h[..|h| - 1];
      assert forall k :: 0 <= k < |p| ==> p[k] == h[k];
      TrimmedEnd(p)
  }

  /** Start of the run of non-separators that ends at position `j` of `h`. */
  function WordStart(h: string, j: nat): (i: nat)
    requires j <= |h|
    ensures i <= j
    ensures i == 0 || IsSpace(h[i - 1])
    ensures forall k :: i <= k < j ==> !IsSpace(h[k])
    ensures j > 0 && !IsSpace(h[j - 1]) ==> i < j
  {
    if j == 0 || IsSpace(h[j - 1]) then j else WordStart(h, j - 1)
  }

  /** Every word-bearing header has a last-word span, and the token is that span. */
  lemma LastWordHasSpan(h: string) returns (i: nat, j: nat)
    requires Words(h) != []
    ensures j == TrimmedEnd(h) && i == WordStart(h, j)
    ensures IsLastWordSpan(h, i, j)
    ensures Words(h)[|Words(h)| - 1] == h[i..j]
  {
    NoWordsIffAllSpace(h);
    j := TrimmedEnd(h);
    i := WordStart(h, j);
    LastWordFromSpan(h, i, j);
  }

  // ---------------------------------------------------------------------------
  // What the gate accepts

  /** The token is exactly the last word of the header. */
  lemma TokenIsLastWord(h: string, t: string)
    ensures Token(Some(h)) == Some(t) <==> exists i: nat, j: nat :: IsLastWordSpan(h, i, j) && h[i..j] == t
  {
    if Token(Some(h)) == Some(t) {
      var i, j := LastWordHasSpan(h);
      assert IsLastWordSpan(h, i, j) && h[i..j] == t;
    }
    if exists i: nat, j: nat :: IsLastWordSpan(h, i, j) && h[i..j] == t {
      var i: nat, j: nat :| IsLastWordSpan(h, i, j) && h[i..j] == t;
      LastWordFromSpan(h, i, j);
    }
  }

  /**
   * The same token read from the right: drop the trailing separators, then
   * take the run of non-separators that ends there.
   */
  lemma TokenFromTheRight(h: string)
    ensures Token(Some(h)) ==
      var j := TrimmedEnd(h);
      if j == 0 then None else Some(h[WordStart(h, j)..j])
  {
    NoWordsIffAllSpace(h);
    var j := TrimmedEnd(h);
    if Words(h) != [] {
      var i', j' := LastWordHasSpan(h);
    }
  }

  /** A missing header, or one made only of separators, yields no token. */
  lemma NoTokenIffBlank(header: Option<string>)
    ensures Token(header).None? <==> (header.None? || AllSpace(header.value))
  {
    if header.Some? {
      NoWordsIffAllSpace(header.value);
    }
  }

  /**
   * Any scheme word may precede the key: `"Bearer " + key`, `"Basic " + key`
   * and `"anything at all " + key` are all accepted, whenever the key is a
   * single word.
   */
  lemma SchemeIsNotChecked(scheme: string, key: string)
    ensures Authorized(Some(scheme + " " + key), key) <==> IsWord(key)
  {
    if IsWord(key) {
      WordsOfWord(key);
      assert scheme + " " + key == scheme + [' '] + key;
      WordsSplitAtSpace(scheme, ' ', key);
    }
  }

  /** The header the clients send, `"Bearer " + key`, is accepted for any single-word key. */
  lemma BearerAccepted(key: string)
    requires IsWord(key)
    ensures Authorized(Some("Bearer " + key), key)
  {
    SchemeIsNotChecked("Bearer", key);
    assert "Bearer" + " " + key == "Bearer " + key;
  }

  /** The bare key, with no scheme at all, is accepted too. */
  lemma BareKeyAccepted(key: string)
    ensures Authorized(Some(key), key) <==> IsWord(key)
  {
    if IsWord(key) {
      WordsOfWord(key);
    }
  }

  /** A configured key that is empty or contains a separator rejects every request. */
  lemma UnmatchableKey(key: string, header: Option<string>)
    requires !IsWord(key)
    ensures !Authorized(header, key)
  {
  }
}
