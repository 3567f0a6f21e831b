/**
 * The blog cards' author badge: the avatar image when the author has one,
 * otherwise the initials `getInitials` derives from the author's name.
 */
module Blog {
  import opened Wrappers
  import opened Sequences
  import opened JsText

  /** `s.split(" ")`: the pieces between single spaces, empty pieces included. */
  function Split(s: string): (parts: seq<string>)
    ensures |parts| >= 1
    ensures forall k :: 0 <= k < |parts| ==> ' ' !in parts[k]
    decreases |s|
  {
    if ' ' !in s then [s]
    else
      var i := IndexOf(s, ' ');
      [s[..i]] + Split(s[i + 1..])
  }

  /** `parts.join(" ")`. */
  function Join(parts: seq<string>): string
    requires |parts| >= 1
    decreases |parts|
  {
    if |parts| == 1 then parts[0] else parts[0] + " " + Join(parts[1..])
  }

  /** Splitting on spaces loses nothing: joining the pieces with spaces gives the string back. */
  lemma {:induction false} SplitJoin(s: string)
    ensures Join(Split(s)) == s
    decreases |s|
  {
    if ' ' in s {
      var i := IndexOf(s, ' ');
      var rest := Split(s[i + 1..]);
      SplitJoin(s[i + 1..]);
      var p := Split(s);
      assert p == [s[..i]] + rest;
      assert p[0] == s[..i] && p[1..] == rest;
      assert Join(p) == s[..i] + " " + Join(rest);
      assert s == s[..i] + " " + s[i + 1..];
    }
  }

  /** Every character of every piece occurs in `s`. */
  lemma {:induction false} SplitDrawsOn(s: string)
    ensures forall k, j :: 0 <= k < |Split(s)| && 0 <= j < |Split(s)[k]| ==> Split(s)[k][j] in s
    decreases |s|
  {
    if ' ' in s {
      var i := IndexOf(s, ' ');
      SplitDrawsOn(s[i + 1..]);
      var parts := Split(s);
      forall k, j | 0 <= k < |parts| && 0 <= j < |parts[k]| ensures parts[k][j] in s {
        if k == 0 {
          assert parts[0][j] == s[j];
        } else {
          assert parts[k] == Split(s[i + 1..])[k - 1];
          var c := parts[k][j];
          assert c in s[i + 1..];
          var m :| 0 <= m < |s[i + 1..]| && s[i + 1..][m] == c;
          assert s[i + 1 + m] == c;
        }
      }
    }
  }

  /** `.filter(Boolean)`: drops the empty pieces, keeping the order. */
  function NonEmpty(parts: seq<string>): (r: seq<string>)
    ensures |r| <= |parts|
    ensures forall k :: 0 <= k < |r| ==> r[k] != [] && r[k] in parts
    ensures forall p :: p in parts && p != [] ==> p in r
    decreases |parts|
  {
    if parts == [] then []
    else if parts[0] == [] then NonEmpty(parts[1..])
    else [parts[0]] + NonEmpty(parts[1..])
  }

  /** `name.trim().split(" ").filter(Boolean)`: the words of the name. */
  function Words(name: string): (w: seq<string>)
    ensures forall k :: 0 <= k < |w| ==> w[k] != [] && ' ' !in w[k]
  {
    NonEmpty(Split(Trim(name)))
  }

  /** `filter(Boolean)` keeps the order of the pieces. */
  lemma {:induction false} NonEmptyInOrder(parts: seq<string>)
    ensures IsSubsequence(NonEmpty(parts), parts)
    decreases |parts|
  {
    if parts != [] {
      NonEmptyInOrder(parts[1..]);
      var rest := NonEmpty(parts[1..]);
      if parts[0] == [] {
        SubsequenceSkip(rest, parts);
      } else {
        assert NonEmpty(parts)[1..] == rest;
      }
    }
  }

  /** `filter(Boolean)` keeps every non-empty piece as often as it occurs, and no empty one. */
  lemma {:induction false} NonEmptyCounts(parts: seq<string>)
    ensures forall p :: multiset(NonEmpty(parts))[p] == if p != [] then multiset(parts)[p] else 0
    decreases |parts|
  {
    if parts != [] {
      NonEmptyCounts(parts[1..]);
      var head := if parts[0] == [] then [] else [parts[0]];
      assert parts == [parts[0]] + parts[1..];
      assert multiset(parts) == multiset([parts[0]]) + multiset(parts[1..]);
      assert multiset(NonEmpty(parts)) == multiset(head) + multiset(NonEmpty(parts[1..]));
    }
  }

  /** When the last piece is non-empty it is also the last kept piece. */
  lemma {:induction false} NonEmptyLast(parts: seq<string>)
    requires parts != [] && parts[|parts| - 1] != []
    ensures NonEmpty(parts) != [] && NonEmpty(parts)[|NonEmpty(parts)| - 1] == parts[|parts| - 1]
    decreases |parts|
  {
    if |parts| > 1 {
      NonEmptyLast(parts[1..]);
      var rest := NonEmpty(parts[1..]);
      assert parts[1..][|parts[1..]| - 1] == parts[|parts| - 1];
      if parts[0] != [] {
        assert NonEmpty(parts) == [parts[0]] + rest;
      }
    }
  }

  /** The words are the non-empty pieces of the trimmed name, in order and with their repetitions. */
  lemma {:induction false} WordsArePieces(name: string)
    ensures IsSubsequence(Words(name), Split(Trim(name)))
    ensures forall p :: multiset(Words(name))[p] ==
                        if p != [] then multiset(Split(Trim(name)))[p] else 0
  {
    NonEmptyInOrder(Split(Trim(name)));
    NonEmptyCounts(Split(Trim(name)));
  }

  /** The last piece of `s.split(" ")` is what follows the last space. */
  lemma {:induction false} SplitLastPiece(s: string) returns (i: int)
    requires ' ' in s
    ensures 0 <= i < |s| && s[i] == ' ' && (forall j :: i < j < |s| ==> s[j] != ' ')
    ensures Split(s)[|Split(s)| - 1] == s[i + 1..]
  {
    i := LastSpace(s);
    var last := Split(s)[|Split(s)| - 1];
    assert ' ' !in last;
    forall j | i < j < |s| ensures s[j] != ' ' {
      assert s[j] == last[j - i - 1];
    }
  }

  /** A space whose suffix is the last piece of `s.split(" ")`. */
  lemma {:induction false} LastSpace(s: string) returns (i: int)
    requires ' ' in s
    ensures 0 <= i < |s| && s[i] == ' ' && Split(s)[|Split(s)| - 1] == s[i + 1..]
  {
    var p := Split(s);
    assert |p| >= 2;
    JoinLast(p);
    SplitJoin(s);
    var pre := Join(p[..|p| - 1]);
    i := |pre|;
    assert s == pre + " " + p[|p| - 1];
    assert s[i + 1..] == p[|p| - 1];
  }

  /** The joined string ends with a space and the last piece. */
  lemma {:induction false} JoinLast(parts: seq<string>)
    requires |parts| >= 2
    ensures Join(parts) == Join(parts[..|parts| - 1]) + " " + parts[|parts| - 1]
    decreases |parts|
  {
    var n := |parts|;
    if n > 2 {
      JoinLast(parts[1..]);
      assert parts[1..][..n - 2] == parts[..n - 1][1..];
      assert parts[1..][n - 2] == parts[n - 1];
    }
  }

  /** `getInitials`: the first letters of the first and the last word, upper-cased. */
  function GetInitials(name: string): (r: string)
    ensures |r| <= 2
  {
    var parts := Words(name);
    var first := if |parts| > 0 then [parts[0][0]] else "";
    var last := if |parts| > 1 then [parts[|parts| - 1][0]] else "";
    ToUpper(first + last)
  }

  /**
   * At most two initials: one per word up to two, the middle words
   * ignored; the first is the name's first non-blank character, upper-cased,
   * and the second the upper-cased first character of the last word.
   */
  lemma {:induction false} InitialsShape(name: string)
    ensures var w := Words(name);
            var r := GetInitials(name);
            |r| == (if |w| >= 2 then 2 else |w|) &&
            (|w| >= 1 ==> r[0] == ToUpperChar(w[0][0])) &&
            (|w| >= 2 ==> r[1] == ToUpperChar(w[|w| - 1][0]))
  {
  }

  /** The first initial is the first character of the name that is not white space. */
  lemma {:induction false} FirstInitial(name: string)
    requires GetInitials(name) != ""
    ensures LeadingWhitespace(name) < |name|
    ensures GetInitials(name)[0] == ToUpperChar(name[LeadingWhitespace(name)])
  {
  }

  /** `t[i]` is the last space of `t`, and something follows it. */
  predicate IsLastSpace(t: string, i: int) {
    0 <= i < |t| - 1 && t[i] == ' ' && forall j :: i < j < |t| ==> t[j] != ' '
  }

  /**
   * With two or more words the second initial is the character that
   * follows the last space of the trimmed name, upper-cased.
   */
  lemma {:induction false} LastInitial(name: string)
    requires |Words(name)| >= 2
    ensures exists i :: IsLastSpace(Trim(name), i) && GetInitials(name)[1] == ToUpperChar(Trim(name)[i + 1])
  {
    var t := Trim(name);
    var w := Words(name);
    assert w == NonEmpty(Split(t));
    assert t != [] ==> !IsWhitespace(t[|t| - 1]);
    var i := LastWordAfterLastSpace(t);
    assert GetInitials(name)[1] == ToUpperChar(t[i + 1]) by {
      SecondInitial(name);
    }
  }

  /** With two or more words the second initial comes from the last word. */
  lemma {:induction false} SecondInitial(name: string)
    requires |Words(name)| >= 2
    ensures |GetInitials(name)| == 2
    ensures GetInitials(name)[1] == ToUpperChar(Words(name)[|Words(name)| - 1][0])
  {
  }

  /** In a string that does not end in white space, the last word starts after the last space. */
  lemma {:induction false} LastWordAfterLastSpace(t: string) returns (i: int)
    requires t != [] ==> !IsWhitespace(t[|t| - 1])
    requires |NonEmpty(Split(t))| >= 2
    ensures IsLastSpace(t, i)
    ensures var w := NonEmpty(Split(t)); w[|w| - 1] == t[i + 1..] && w[|w| - 1][0] == t[i + 1]
  {
    assert |Split(t)| >= 2;
    assert ' ' in t;
    i := SplitLastPiece(t);
    NonEmptyLast(Split(t));
    var w := NonEmpty(Split(t));
    assert w[|w| - 1][0] == t[i + 1..][0];
  }

  /** The initials are empty exactly when the name is blank. */
  lemma {:induction false} NoInitialsIffBlank(name: string)
    ensures GetInitials(name) == "" <==> forall k :: 0 <= k < |name| ==> IsWhitespace(name[k])
  {
  }

  /** Every initial is an upper-cased character of the name. */
  lemma {:induction false} InitialsDrawOnName(name: string)
    ensures forall i :: 0 <= i < |GetInitials(name)| ==>
              exists k :: 0 <= k < |name| && GetInitials(name)[i] == ToUpperChar(name[k])
  {
    var w := Words(name);
    var r := GetInitials(name);
    InitialsShape(name);
    forall i | 0 <= i < |r|
      ensures exists k :: 0 <= k < |name| && r[i] == ToUpperChar(name[k])
    {
      var word := if i == 0 then w[0] else w[|w| - 1];
      var k := WordStartInName(name, word);
      assert r[i] == ToUpperChar(name[k]);
    }
  }

  /** A word's first letter is a character of the name. */
  lemma {:induction false} WordStartInName(name: string, word: string) returns (k: int)
    requires word in Words(name)
    ensures 0 <= k < |name| && word != [] && name[k] == word[0]
  {
    var t := Trim(name);
    var w := Words(name);
    var i :| 0 <= i < |w| && w[i] == word;
    assert word in Split(t);
    var j := PieceStartInString(t, word);
    k := LeadingWhitespace(name) + j;
  }

  /** A non-empty piece of `Split(s)` starts with a character of `s`. */
  lemma {:induction false} PieceStartInString(s: string, piece: string) returns (j: int)
    requires piece in Split(s) && piece != []
    ensures 0 <= j < |s| && s[j] == piece[0]
  {
    var m :| 0 <= m < |Split(s)| && Split(s)[m] == piece;
    SplitDrawsOn(s);
    assert piece[0] == Split(s)[m][0];
    assert piece[0] in s;
    j :| 0 <= j < |s| && s[j] == piece[0];
  }

  datatype Author = Author(name: string, avatarUrl: Option<string>)

  /** What the badge shows. */
  datatype Badge = AvatarImage(src: string, alt: string) | Initials(text: string)

  /** The image when `avatarUrl` is truthy, the initials otherwise. */
  function AuthorBadge(author: Author): (b: Badge)
    ensures b.AvatarImage? <==> Truthy(author.avatarUrl)
    ensures b.AvatarImage? ==> b.src == author.avatarUrl.value && b.alt == author.name + " avatar"
    ensures b.Initials? ==> b.text == GetInitials(author.name)
  {
    if Truthy(author.avatarUrl) then AvatarImage(author.avatarUrl.value, author.name + " avatar")
    else Initials(GetInitials(author.name))
  }
}
