/** The card memory game: a deck of image/name card pairs that the player
    turns face up two at a time, counting attempts, until every pair is
    matched. The mismatch timeout is the explicit event `ResolveMismatch`
    and the shuffle's random indices are supplied by the caller. */
module MemoryMatch {

  datatype Option<T> = None | Some(value: T)

  /** The two faces of a pair: the picture and the word naming it. */
  datatype CardType = Image | Name

  datatype Card = Card(id: int, content: string, kind: CardType, flipped: bool, solved: bool)

  datatype Icon = Icon(img: string, name: string)

  /** The fixed icon table the deck is built from. */
  const IconImages: seq<Icon> := [
    Icon("./img/Disgust.png", "Disgust"),
    Icon("./img/Fear.png", "Fear"),
    Icon("./img/Joy.png", "Joy"),
    Icon("./img/Sadness.png", "Sadness"),
    Icon("./img/Anxiety.png", "Anxiety"),
    Icon("./img/Envy.png", "Envy")
  ]

  // ---------------------------------------------------------------------
  // Strings and the match test
  // ---------------------------------------------------------------------

  /** JavaScript's `s.includes(t)`: `t` occurs in `s` as a contiguous block. */
  predicate Includes(s: string, t: string) {
    exists i :: 0 <= i <= |s| && OccursAt(s, t, i)
  }

  /** `t` occurs in `s` starting at position `i`. */
  predicate OccursAt(s: string, t: string, i: nat) {
    i + |t| <= |s| && s[i..i + |t|] == t
  }

  /** A non-empty string whose first character never occurs in `s` is not in `s`. */
  lemma NotIncludedByFirstChar(s: string, t: string)
    requires |t| > 0 && t[0] !in s
    ensures !Includes(s, t)
  {
    forall i: nat | i <= |s| ensures !OccursAt(s, t, i) {
      if i + |t| <= |s| {
        assert s[i..i + |t|][0] == s[i];
      }
    }
  }

  /** The pair test of the match effect: an image card and a name card match
      when the image path contains the name, whichever was turned first. */
  predicate IsMatch(first: Card, second: Card) {
    || (first.kind == Image && second.kind == Name && Includes(first.content, second.content))
    || (first.kind == Name && second.kind == Image && Includes(second.content, first.content))
  }

  /** The match test does not depend on the order the two cards were turned. */
  lemma IsMatchSymmetric(a: Card, b: Card)
    ensures IsMatch(a, b) == IsMatch(b, a)
  {
  }

  predicate IsUpper(c: char) {
    'A' <= c <= 'Z'
  }

  /** Every entry of the icon table has its name right after `./img/` in its
      image path. */
  lemma IconNameInPath(k: int)
    requires 0 <= k < |IconImages|
    ensures OccursAt(IconImages[k].img, IconImages[k].name, 6)
  {
    if k == 0 {
      assert "./img/Disgust.png"[6..13] == "Disgust";
    } else if k == 1 {
      assert "./img/Fear.png"[6..10] == "Fear";
    } else if k == 2 {
      assert "./img/Joy.png"[6..9] == "Joy";
    } else if k == 3 {
      assert "./img/Sadness.png"[6..13] == "Sadness";
    } else if k == 4 {
      assert "./img/Anxiety.png"[6..13] == "Anxiety";
    } else {
      assert "./img/Envy.png"[6..10] == "Envy";
    }
  }

  /** The only upper-case letter of an entry's image path is the capitalised
      initial of its name, at position 6. */
  lemma IconPathCapitals(k: int)
    requires 0 <= k < |IconImages|
    ensures |IconImages[k].name| > 0 && IsUpper(IconImages[k].name[0])
    ensures |IconImages[k].img| > 6 && IconImages[k].img[6] == IconImages[k].name[0]
    ensures forall p :: 0 <= p < |IconImages[k].img| && p != 6 ==> !IsUpper(IconImages[k].img[p])
  {
    assert k == 0 || k == 1 || k == 2 || k == 3 || k == 4 || k == 5;
  }

  /** Different entries of the icon table have different initials. */
  lemma IconInitialsDistinct(k1: int, k2: int)
    requires 0 <= k1 < |IconImages| && 0 <= k2 < |IconImages| && k1 != k2
    ensures |IconImages[k1].name| > 0 && |IconImages[k2].name| > 0
    ensures IconImages[k1].name[0] != IconImages[k2].name[0]
  {
    assert k1 == 0 || k1 == 1 || k1 == 2 || k1 == 3 || k1 == 4 || k1 == 5;
    assert k2 == 0 || k2 == 1 || k2 == 2 || k2 == 3 || k2 == 4 || k2 == 5;
  }

  /** For the icon table, the image path of entry `k1` contains the name of
      entry `k2` exactly when they are the same entry. */
  lemma IconPairing(k1: int, k2: int)
    requires 0 <= k1 < |IconImages| && 0 <= k2 < |IconImages|
    ensures Includes(IconImages[k1].img, IconImages[k2].name) <==> k1 == k2
  {
    var img, name := IconImages[k1].img, IconImages[k2].name;
    if k1 == k2 {
      IconNameInPath(k1);
    } else {
      IconPathCapitals(k1);
      IconPathCapitals(k2);
      IconInitialsDistinct(k1, k2);
      assert name[0] !in img by {
        forall p | 0 <= p < |img| ensures img[p] != name[0] {
          if p != 6 {
            assert !IsUpper(img[p]);
          }
        }
      }
      NotIncludedByFirstChar(img, name);
    }
  }

  // ---------------------------------------------------------------------
  // Building and shuffling the deck
  // ---------------------------------------------------------------------

  /** The card `createCards` builds at position `i`: entry `i / 2` of the
      icon table, its image at even positions and its name at odd ones. */
  function DeckCard(i: nat): Card
    requires i < 2 * |IconImages|
  {
    if i % 2 == 0 then Card(i, IconImages[i / 2].img, Image, false, false)
    else Card(i, IconImages[i / 2].name, Name, false, false)
  }

  /** The deck `createCards` returns, in build order. */
  function FreshDeck(): seq<Card> {
    seq(2 * |IconImages|, i requires 0 <= i < 2 * |IconImages| => DeckCard(i))
  }

  function Ids(cs: seq<Card>): seq<int> {
    seq(|cs|, k requires 0 <= k < |cs| => cs[k].id)
  }

  /** Ids of a list extended by one card. */
  lemma IdsAppend(cs: seq<Card>, c: Card)
    ensures Ids(cs + [c]) == Ids(cs) + [c.id]
  {
  }

  /** Lists of cards that agree on every id have the same ids. */
  lemma IdsAgree(a: seq<Card>, b: seq<Card>)
    requires |a| == |b| && forall i :: 0 <= i < |a| ==> a[i].id == b[i].id
    ensures Ids(a) == Ids(b)
  {
  }

  /** No value occurs twice in `xs`; `NoDup(Ids(cs))` says no two cards of
      `cs` carry the same id. */
  predicate NoDup(xs: seq<int>) {
    forall i, j :: 0 <= i < |xs| && 0 <= j < |xs| && i != j ==> xs[i] != xs[j]
  }

  /** The ids of `cs` are duplicate-free exactly when no two cards of `cs`
      carry the same id. */
  lemma NoDupIds(cs: seq<Card>)
    ensures NoDup(Ids(cs)) <==>
      forall i, j :: 0 <= i < |cs| && 0 <= j < |cs| && i != j ==> cs[i].id != cs[j].id
  {
    assert forall i :: 0 <= i < |cs| ==> Ids(cs)[i] == cs[i].id;
  }

  /** Shape of the built deck: twelve cards, the image of entry `k` at
      position 2k with id 2k, its name at 2k+1 with id 2k+1, every card face
      down and unsolved, and all ids distinct. */
  lemma FreshDeckShape()
    ensures |FreshDeck()| == 12
    ensures forall k :: 0 <= k < |IconImages| ==>
      && FreshDeck()[2 * k] == Card(2 * k, IconImages[k].img, Image, false, false)
      && FreshDeck()[2 * k + 1] == Card(2 * k + 1, IconImages[k].name, Name, false, false)
    ensures forall i :: 0 <= i < |FreshDeck()| ==>
      FreshDeck()[i].id == i && !FreshDeck()[i].flipped && !FreshDeck()[i].solved
    ensures NoDup(Ids(FreshDeck()))
  {
    var d := FreshDeck();
    forall k | 0 <= k < |IconImages|
      ensures d[2 * k] == Card(2 * k, IconImages[k].img, Image, false, false)
      ensures d[2 * k + 1] == Card(2 * k + 1, IconImages[k].name, Name, false, false)
    {
      assert (2 * k) % 2 == 0 && (2 * k) / 2 == k;
      assert (2 * k + 1) % 2 == 1 && (2 * k + 1) / 2 == k;
    }
  }

  /** Two cards of the built deck match exactly when they are the image and
      the name of the same icon entry (ids 2k and 2k+1). */
  lemma MatchIffSameIcon(a: Card, b: Card)
    requires a in FreshDeck() && b in FreshDeck()
    ensures IsMatch(a, b) <==> a.id / 2 == b.id / 2 && a.kind != b.kind
  {
    var d := FreshDeck();
    var i :| 0 <= i < |d| && d[i] == a;
    var j :| 0 <= j < |d| && d[j] == b;
    if a.kind == Image && b.kind == Name {
      IconPairing(i / 2, j / 2);
    } else if a.kind == Name && b.kind == Image {
      IconPairing(j / 2, i / 2);
    }
  }

  /** `createCards`: one image card and one name card per icon entry, pushed in
      table order. */
  method CreateCards() returns (cards: seq<Card>)
    ensures cards == FreshDeck()
  {
    cards := [];
    var index := 0;
    while index < |IconImages|
      invariant 0 <= index <= |IconImages|
      invariant |cards| == 2 * index
      invariant forall i :: 0 <= i < |cards| ==> cards[i] == DeckCard(i)
    {
      var icon := IconImages[index];
      cards := cards + [Card(index * 2, icon.img, Image, false, false),
                        Card(index * 2 + 1, icon.name, Name, false, false)];
      assert (index * 2) % 2 == 0 && (index * 2) / 2 == index;
      assert (index * 2 + 1) % 2 == 1 && (index * 2 + 1) / 2 == index;
      index := index + 1;
    }
  }

  /** `s` with the elements at `i` and `j` exchanged. */
  function Swap<T>(s: seq<T>, i: int, j: int): (r: seq<T>)
    requires 0 <= i < |s| && 0 <= j < |s|
    ensures |r| == |s| && r[i] == s[j] && r[j] == s[i]
    ensures forall k :: 0 <= k < |s| && k != i && k != j ==> r[k] == s[k]
    ensures multiset(r) == multiset(s)
  {
    s[i := s[j]][j := s[i]]
  }

  /** The draws `js` fit a downward pass starting at index `i`: one draw for
      each of the steps `i, i - 1, ..., 1`, the draw of the step at `i - k`
      lying in `[0, i - k]`. */
  predicate DrawsFit(i: int, js: seq<int>) {
    && |js| == (if i > 0 then i else 0)
    && forall k :: 0 <= k < |js| ==> 0 <= js[k] <= i - k
  }

  /** Fisher–Yates from index `i` down to 1: the step at `i` exchanges
      positions `i` and `js[0]`. The result is a permutation of `s`. */
  function ShuffleFrom<T>(s: seq<T>, i: int, js: seq<int>): (r: seq<T>)
    requires i < |s| && DrawsFit(i, js)
    ensures |r| == |s| && multiset(r) == multiset(s)
    decreases if i > 0 then i else 0
  {
    if i <= 0 then s
    else ShuffleFrom(Swap(s, i, js[0]), i - 1, js[1..])
  }

  /** `shuffleCards` on `s` with the random draws `js`, the k-th draw made at
      loop index `|s| - 1 - k`. */
  function Shuffled<T>(s: seq<T>, js: seq<int>): seq<T>
    requires DrawsFit(|s| - 1, js)
  {
    ShuffleFrom(s, |s| - 1, js)
  }

  /** Shuffling keeps the ids of a deck distinct. */
  lemma {:induction false} ShuffleKeepsIdsDistinct(s: seq<Card>, i: int, js: seq<int>)
    requires i < |s| && DrawsFit(i, js) && NoDup(Ids(s))
    ensures NoDup(Ids(ShuffleFrom(s, i, js)))
    decreases if i > 0 then i else 0
  {
    if i > 0 {
      var t := Swap(s, i, js[0]);
      NoDupIds(s);
      NoDupIds(t);
      assert NoDup(Ids(t)) by {
        forall a, b | 0 <= a < |t| && 0 <= b < |t| && a != b
          ensures t[a].id != t[b].id
        {
          var a' := if a == i then js[0] else if a == js[0] then i else a;
          var b' := if b == i then js[0] else if b == js[0] then i else b;
          assert t[a] == s[a'] && t[b] == s[b'];
        }
      }
      ShuffleKeepsIdsDistinct(t, i - 1, js[1..]);
    }
  }

  /** `[array[i], array[j]] = [array[j], array[i]]`. */
  method SwapSlots(a: array<Card>, i: int, j: int)
    requires 0 <= i < a.Length && 0 <= j < a.Length
    modifies a
    ensures a[..] == Swap(old(a[..]), i, j)
  {
    var t := a[i];
    a[i] := a[j];
    a[j] := t;
  }

  /** `shuffleCards`: the in-place downward Fisher–Yates pass; `js` holds the
      values of `Math.floor(Math.random() * (i + 1))` in the order drawn. */
  method ShuffleCards(a: array<Card>, js: seq<int>)
    requires DrawsFit(a.Length - 1, js)
    modifies a
    ensures a[..] == Shuffled(old(a[..]), js)
    ensures multiset(a[..]) == multiset(old(a[..]))
  {
    ghost var input := a[..];
    var i := a.Length - 1;
    var k := 0;
    while i > 0
      invariant -1 <= i < a.Length && (a.Length > 0 ==> 0 <= i)
      invariant k == a.Length - 1 - i && k <= |js|
      invariant DrawsFit(i, js[k..])
      invariant ShuffleFrom(a[..], i, js[k..]) == Shuffled(input, js)
    {
      ghost var before := a[..];
      ShuffleStep(before, i, js[k..]);
      assert js[k..][1..] == js[k + 1..];
      SwapSlots(a, i, js[k]);
      i, k := i - 1, k + 1;
    }
  }

  /** `createCards` followed by `shuffleCards` on a fresh array holding the
      built deck: the shuffled built deck. */
  method DealDeck(js: seq<int>) returns (deck: seq<Card>)
    requires DrawsFit(|FreshDeck()| - 1, js)
    ensures deck == Shuffled(FreshDeck(), js)
    ensures multiset(deck) == multiset(FreshDeck())
  {
    var built := CreateCards();
    var a := new Card[|built|](i requires 0 <= i < |built| => built[i]);
    assert a[..] == built;
    ShuffleCards(a, js);
    deck := a[..];
  }

  /** One step of the downward pass, as `ShuffleCards` performs it. */
  lemma ShuffleStep<T>(before: seq<T>, i: int, rest: seq<int>)
    requires 0 < i < |before| && DrawsFit(i, rest)
    ensures DrawsFit(i - 1, rest[1..])
    ensures ShuffleFrom(before, i, rest) == ShuffleFrom(Swap(before, i, rest[0]), i - 1, rest[1..])
  {
  }

  /** The position of the first card of `cs` carrying `id`, or `|cs|` when
      there is none. */
  function FirstIndexOf(cs: seq<Card>, id: int): (r: nat)
    ensures r <= |cs|
    ensures r < |cs| ==> cs[r].id == id
    ensures forall j :: 0 <= j < r ==> cs[j].id != id
  {
    if cs == [] then 0
    else if cs[0].id == id then 0
    else 1 + FirstIndexOf(cs[1..], id)
  }

  /** `cards.find(card => card.id === id)`: the first card carrying `id`, if any. */
  function FindCard(cs: seq<Card>, id: int): (r: Option<Card>)
    ensures r.None? <==> forall i :: 0 <= i < |cs| ==> cs[i].id != id
    ensures r.Some? ==> r.value.id == id && r.value == cs[FirstIndexOf(cs, id)]
  {
    var k := FirstIndexOf(cs, id);
    if k < |cs| then Some(cs[k]) else None
  }

  // ---------------------------------------------------------------------
  // Completion
  // ---------------------------------------------------------------------

  /** The condition of the `gameOver` effect. */
  predicate GameOver(solvedCards: seq<int>, cardCount: int, attempts: int) {
    |solvedCards| == cardCount && attempts != 0
  }

  /** A duplicate-free list has as many distinct elements as entries. */
  lemma {:induction false} NoDupCardinality(xs: seq<int>)
    requires NoDup(xs)
    ensures |set x | x in xs| == |xs|
  {
    if xs != [] {
      var tail := xs[1..];
      assert NoDup(tail) by {
        forall i, j | 0 <= i < |tail| && 0 <= j < |tail| && i != j ensures tail[i] != tail[j] {
          assert tail[i] == xs[i + 1] && tail[j] == xs[j + 1];
        }
      }
      NoDupCardinality(tail);
      assert (set x | x in xs) == (set x | x in tail) + {xs[0]};
      assert xs[0] !in tail by {
        forall j | 0 <= j < |tail| ensures tail[j] != xs[0] {
          assert tail[j] == xs[j + 1];
        }
      }
    }
  }

  /** A subset as large as its superset is the whole superset. */
  lemma SubsetOfSameSize(a: set<int>, b: set<int>)
    requires a <= b && |a| == |b|
    ensures a == b
  {
    assert b == a + (b - a);
    assert |b - a| == 0;
    forall x | x in b ensures x in a {
      assert x !in b - a;
    }
  }

  /** When the solved ids are distinct ids of the deck, as many solved ids as
      cards means every card of the deck is solved, and conversely. */
  lemma SolvedCoverIffFull(ids: seq<int>, solved: seq<int>)
    requires NoDup(ids) && NoDup(solved)
    requires forall x :: x in solved ==> x in ids
    ensures |solved| == |ids| <==> forall x :: x in ids ==> x in solved
  {
    var sIds, sSolved := set x | x in ids, set x | x in solved;
    NoDupCardinality(ids);
    NoDupCardinality(solved);
    if |solved| == |ids| {
      SubsetOfSameSize(sSolved, sIds);
      assert forall x :: x in ids ==> x in sIds;
    }
    if forall x :: x in ids ==> x in solved {
      assert sSolved == sIds;
    }
  }

  // ---------------------------------------------------------------------
  // Table transitions and their invariant
  // ---------------------------------------------------------------------

  /** `cards.map(...)` of `handleCardClick`: the cards carrying `id` turned face up. */
  function TurnUp(cs: seq<Card>, id: int): seq<Card> {
    seq(|cs|, i requires 0 <= i < |cs| => if cs[i].id == id then cs[i].(flipped := true) else cs[i])
  }

  /** `cards.map(...)` of the mismatch timeout: the cards whose id is in
      `pair` turned face down. */
  function TurnDown(cs: seq<Card>, pair: seq<Card>): seq<Card> {
    seq(|cs|, i requires 0 <= i < |cs| => if cs[i].id in Ids(pair) then cs[i].(flipped := false) else cs[i])
  }

  /** The table is the dealt deck, a permutation of the built deck, with only
      the face-up flags changed. */
  ghost predicate DeckInvariant(cards: seq<Card>, dealt: seq<Card>) {
    && |dealt| == |cards|
    && multiset(dealt) == multiset(FreshDeck())
    && NoDup(Ids(dealt))
    && (forall i :: 0 <= i < |dealt| ==> !dealt[i].flipped && !dealt[i].solved)
    && (forall i :: 0 <= i < |cards| ==> cards[i] == dealt[i].(flipped := cards[i].flipped))
  }

  /** The turned cards are dealt cards, turned and solved ids are distinct
      and disjoint, solved ids belong to the table, and a card is face up
      exactly when its id is solved or turned. */
  ghost predicate PlayInvariant(cards: seq<Card>, flipped: seq<Card>, solved: seq<int>, dealt: seq<Card>) {
    && (forall k :: 0 <= k < |flipped| ==> flipped[k] in dealt)
    && NoDup(Ids(flipped)) && NoDup(solved)
    && (forall x :: x in solved ==> x !in Ids(flipped) && x in Ids(cards))
    && (forall i :: 0 <= i < |cards| ==>
          (cards[i].flipped <==> cards[i].id in solved || cards[i].id in Ids(flipped)))
  }

  /** Turning up the face-down card at position `p` and appending it to the
      turned list keeps both invariants, and the appended card is the dealt one. */
  lemma TurnUpKeepsInvariant(cards: seq<Card>, flipped: seq<Card>, solved: seq<int>, dealt: seq<Card>, p: int)
    requires DeckInvariant(cards, dealt) && PlayInvariant(cards, flipped, solved, dealt)
    requires 0 <= p < |cards| && !cards[p].flipped
    ensures cards[p] == dealt[p]
    ensures DeckInvariant(TurnUp(cards, cards[p].id), dealt)
    ensures PlayInvariant(TurnUp(cards, cards[p].id), flipped + [cards[p]], solved, dealt)
  {
    var id, r, f := cards[p].id, TurnUp(cards, cards[p].id), flipped + [cards[p]];
    IdsAppend(flipped, cards[p]);
    NoDupIds(dealt);
    assert forall i :: 0 <= i < |cards| ==> cards[i].id == dealt[i].id;
    assert forall i :: 0 <= i < |cards| && i != p ==> cards[i].id != id;
    assert Ids(r) == Ids(cards) by { IdsAgree(r, cards); }
    assert NoDup(Ids(f)) by {
      assert id !in Ids(flipped);
    }
  }

  /** Recording a matched pair as solved and clearing the turned list keeps
      the play invariant. */
  lemma SolveKeepsInvariant(cards: seq<Card>, first: Card, second: Card, solved: seq<int>, dealt: seq<Card>)
    requires DeckInvariant(cards, dealt) && PlayInvariant(cards, [first, second], solved, dealt)
    ensures PlayInvariant(cards, [], solved + [first.id, second.id], dealt)
  {
    var pair := [first, second];
    assert Ids(pair) == [first.id, second.id];
    assert first.id in Ids(cards) && second.id in Ids(cards) by {
      assert pair[0] in dealt && pair[1] in dealt;
      var i :| 0 <= i < |dealt| && dealt[i] == first;
      var j :| 0 <= j < |dealt| && dealt[j] == second;
      assert Ids(cards)[i] == cards[i].id == first.id;
      assert Ids(cards)[j] == cards[j].id == second.id;
    }
  }

  /** Turning the turned cards back down and clearing the turned list keeps
      both invariants. */
  lemma TurnDownKeepsInvariant(cards: seq<Card>, pair: seq<Card>, solved: seq<int>, dealt: seq<Card>)
    requires DeckInvariant(cards, dealt) && PlayInvariant(cards, pair, solved, dealt)
    ensures DeckInvariant(TurnDown(cards, pair), dealt)
    ensures PlayInvariant(TurnDown(cards, pair), [], solved, dealt)
  {
    IdsAgree(TurnDown(cards, pair), cards);
  }

  /** With distinct ids, `TurnUp` turns up the card at `p` and no other. */
  lemma TurnUpChangesOnlyThatCard(cs: seq<Card>, p: int)
    requires NoDup(Ids(cs)) && 0 <= p < |cs|
    ensures |TurnUp(cs, cs[p].id)| == |cs|
    ensures TurnUp(cs, cs[p].id)[p] == cs[p].(flipped := true)
    ensures forall i :: 0 <= i < |cs| && i != p ==> TurnUp(cs, cs[p].id)[i] == cs[i]
  {
    NoDupIds(cs);
  }

  // ---------------------------------------------------------------------
  // The component's state as a value, and the events on it
  // ---------------------------------------------------------------------

  /** A snapshot of the memory game component: its React state variables and
      `pendingReset`, the pair a scheduled mismatch timeout will turn back
      (empty when no timeout is pending). */
  datatype Board = Board(
    cards: seq<Card>,
    flippedCards: seq<Card>,
    solvedCards: seq<int>,
    attempts: nat,
    gameOver: bool,
    pendingReset: seq<Card>)

  /** The board reachable from a deal of `dealt`: both table invariants hold,
      at most two cards are turned, a pending timeout holds the current pair,
      which is then a mismatch, and `gameOver` agrees with its effect. */
  ghost predicate BoardValid(b: Board, dealt: seq<Card>) {
    && DeckInvariant(b.cards, dealt)
    && PlayInvariant(b.cards, b.flippedCards, b.solvedCards, dealt)
    && |b.flippedCards| <= 2
    && b.pendingReset == (if |b.flippedCards| == 2 then b.flippedCards else [])
    && (|b.flippedCards| == 2 ==> !IsMatch(b.flippedCards[0], b.flippedCards[1]))
    && b.gameOver == GameOver(b.solvedCards, |b.cards|, b.attempts)
  }

  /** The board `initializeGame` sets up for the deal `deck`. */
  function Deal(deck: seq<Card>): Board {
    Board(deck, [], [], 0, GameOver([], |deck|, 0), [])
  }

  /** A freshly shuffled deck, with nothing turned or solved, is a valid
      board, and the game is not over. */
  lemma DealValid(js: seq<int>)
    requires DrawsFit(|FreshDeck()| - 1, js)
    ensures var d := Shuffled(FreshDeck(), js);
      && multiset(d) == multiset(FreshDeck())
      && BoardValid(Deal(d), d) && !Deal(d).gameOver
  {
    var d := Shuffled(FreshDeck(), js);
    FreshDeckShape();
    ShuffleKeepsIdsDistinct(FreshDeck(), |FreshDeck()| - 1, js);
    forall i | 0 <= i < |d| ensures !d[i].flipped && !d[i].solved {
      assert d[i] in multiset(FreshDeck());
    }
  }

  /** The guard of `handleCardClick`: no card has the id, it is already face
      up, or two cards are already turned. */
  predicate ClickIgnored(b: Board, id: int) {
    var clicked := FindCard(b.cards, id);
    clicked.None? || clicked.value.flipped || |b.flippedCards| >= 2
  }

  /** The state update of `handleCardClick` past its guard: the card with
      `id` is turned face up and appended to `flippedCards`. */
  function TurnCardUp(b: Board, id: int): Board
    requires FindCard(b.cards, id).Some?
  {
    b.(cards := TurnUp(b.cards, id), flippedCards := b.flippedCards + [FindCard(b.cards, id).value])
  }

  /** The match effect, keyed on `[flippedCards, solvedCards]`: once two
      cards are turned an attempt is counted, and the pair is either solved and cleared at once or kept
      turned with the mismatch timeout scheduled. */
  function PairEffect(b: Board): Board {
    if |b.flippedCards| != 2 then b
    else if IsMatch(b.flippedCards[0], b.flippedCards[1]) then
      b.(solvedCards := b.solvedCards + [b.flippedCards[0].id, b.flippedCards[1].id],
         flippedCards := [], attempts := b.attempts + 1)
    else
      b.(attempts := b.attempts + 1, pendingReset := b.flippedCards)
  }

  /** The `gameOver` effect, keyed on `[solvedCards, cards.length, attempts]`:
      `gameOver` re-evaluated. */
  function GameOverEffect(b: Board): Board {
    b.(gameOver := GameOver(b.solvedCards, |b.cards|, b.attempts))
  }

  /** A click on the card with `id` and the effects it sets off; an ignored
      click changes nothing. An accepted click changes `flippedCards`, so the
      match effect runs; it is followed by the `gameOver` effect, which
      leaves `gameOver` as it was whenever none of its keys changed. */
  function Click(b: Board, id: int): Board {
    if ClickIgnored(b, id) then b
    else GameOverEffect(PairEffect(TurnCardUp(b, id)))
  }

  /** The body of the mismatch timeout: the captured pair turned face down
      and `flippedCards` cleared. */
  function Timeout(b: Board): Board {
    b.(cards := TurnDown(b.cards, b.pendingReset), flippedCards := [], pendingReset := [])
  }

  /** A click keeps the board valid. */
  lemma ClickKeepsValid(b: Board, dealt: seq<Card>, id: int)
    requires BoardValid(b, dealt)
    ensures BoardValid(Click(b, id), dealt)
  {
    if !ClickIgnored(b, id) {
      var p := FirstIndexOf(b.cards, id);
      TurnUpKeepsInvariant(b.cards, b.flippedCards, b.solvedCards, dealt, p);
      var cards := TurnUp(b.cards, id);
      var pair := b.flippedCards + [b.cards[p]];
      if |pair| == 2 && IsMatch(pair[0], pair[1]) {
        assert pair == [pair[0], pair[1]];
        SolveKeepsInvariant(cards, pair[0], pair[1], b.solvedCards, dealt);
      }
    }
  }

  /** A click is ignored exactly when no card carries the id, the card
      carrying it is already face up, or two cards are turned; an ignored
      click leaves the board as it was. */
  lemma IgnoredClick(b: Board, dealt: seq<Card>, id: int)
    requires BoardValid(b, dealt)
    ensures ClickIgnored(b, id) <==>
      || (forall i :: 0 <= i < |b.cards| ==> b.cards[i].id != id)
      || (exists i :: 0 <= i < |b.cards| && b.cards[i].id == id && b.cards[i].flipped)
      || |b.flippedCards| >= 2
    ensures ClickIgnored(b, id) ==> Click(b, id) == b
  {
    TableIdsDistinct(b, dealt);
    NoDupIds(b.cards);
    var p := FirstIndexOf(b.cards, id);
    if p < |b.cards| {
      forall i | 0 <= i < |b.cards| && b.cards[i].id == id ensures i == p { }
    }
  }

  /** What an accepted click does: exactly the clicked card is turned face up;
      a first card is only turned; a second card counts one attempt, and the
      pair matches exactly when it is the image and the name of one icon
      entry, in which case both ids are solved and the turned list is
      cleared, and otherwise both stay turned and the timeout is scheduled. */
  lemma ClickOutcome(b: Board, dealt: seq<Card>, id: int)
    requires BoardValid(b, dealt) && !ClickIgnored(b, id)
    ensures var p := FirstIndexOf(b.cards, id);
      && p < |b.cards| && b.cards[p].id == id && !b.cards[p].flipped
      && |Click(b, id).cards| == |b.cards|
      && Click(b, id).cards[p] == b.cards[p].(flipped := true)
      && (forall i :: 0 <= i < |b.cards| && i != p ==> Click(b, id).cards[i] == b.cards[i])
    ensures var r, pair := Click(b, id), b.flippedCards + [b.cards[FirstIndexOf(b.cards, id)]];
      && (|pair| == 1 ==> r.flippedCards == pair && r.solvedCards == b.solvedCards && r.attempts == b.attempts)
      && (|pair| == 2 ==> r.attempts == b.attempts + 1)
      && (|pair| == 2 ==>
            (IsMatch(pair[0], pair[1]) <==> pair[0].id / 2 == pair[1].id / 2 && pair[0].kind != pair[1].kind))
      && (|pair| == 2 && IsMatch(pair[0], pair[1]) ==>
            r.solvedCards == b.solvedCards + [pair[0].id, pair[1].id] && r.flippedCards == [])
      && (|pair| == 2 && !IsMatch(pair[0], pair[1]) ==>
            r.solvedCards == b.solvedCards && r.flippedCards == pair && r.pendingReset == pair)
  {
    var p := FirstIndexOf(b.cards, id);
    TurnUpKeepsInvariant(b.cards, b.flippedCards, b.solvedCards, dealt, p);
    TableIdsDistinct(b, dealt);
    TurnUpChangesOnlyThatCard(b.cards, p);
    var pair := b.flippedCards + [b.cards[p]];
    if |pair| == 2 {
      assert pair[0] in multiset(FreshDeck()) && pair[1] in multiset(FreshDeck()) by {
        assert pair[0] in dealt && pair[1] in dealt;
      }
      MatchIffSameIcon(pair[0], pair[1]);
    }
  }

  /** The timeout keeps the board valid, and it turns face down exactly
      the cards of the captured pair: those cards end face down, every other
      card is left as it was, and afterwards every card is face up exactly
      when its id is solved. The solved list, the attempts and `gameOver`
      are untouched. */
  lemma TimeoutKeepsValid(b: Board, dealt: seq<Card>)
    requires BoardValid(b, dealt) && b.pendingReset != []
    ensures BoardValid(Timeout(b), dealt)
    ensures |Timeout(b).cards| == |b.cards|
    ensures forall i :: 0 <= i < |b.cards| && b.cards[i].id in Ids(b.pendingReset) ==>
      Timeout(b).cards[i] == b.cards[i].(flipped := false)
    ensures forall i :: 0 <= i < |b.cards| && b.cards[i].id !in Ids(b.pendingReset) ==>
      Timeout(b).cards[i] == b.cards[i]
    ensures forall i :: 0 <= i < |b.cards| ==>
      Timeout(b).cards[i] == b.cards[i].(flipped := b.cards[i].id in b.solvedCards)
    ensures Timeout(b).solvedCards == b.solvedCards && Timeout(b).attempts == b.attempts
    ensures Timeout(b).gameOver == b.gameOver && Timeout(b).flippedCards == [] && Timeout(b).pendingReset == []
  {
    TurnDownKeepsInvariant(b.cards, b.pendingReset, b.solvedCards, dealt);
  }

  /** The game is over exactly when some attempt was made and every card on
      the table has its id in the solved list. */
  lemma GameOverIffAllSolved(b: Board, dealt: seq<Card>)
    requires BoardValid(b, dealt)
    ensures b.gameOver <==> b.attempts != 0 && forall i :: 0 <= i < |b.cards| ==> b.cards[i].id in b.solvedCards
  {
    var ids := Ids(b.cards);
    TableIdsDistinct(b, dealt);
    SolvedCoverIffFull(ids, b.solvedCards);
    assert (forall x :: x in ids ==> x in b.solvedCards) <==>
           (forall i :: 0 <= i < |b.cards| ==> b.cards[i].id in b.solvedCards) by {
      forall i | 0 <= i < |b.cards| ensures ids[i] == b.cards[i].id { }
    }
  }

  /** No two cards on the table carry the same id, and every turned card is a
      card of the built deck. */
  lemma TableIdsDistinct(b: Board, dealt: seq<Card>)
    requires BoardValid(b, dealt)
    ensures NoDup(Ids(b.cards))
    ensures forall k :: 0 <= k < |b.flippedCards| ==> b.flippedCards[k] in FreshDeck()
  {
    NoDupIds(dealt);
    NoDupIds(b.cards);
    forall i, j | 0 <= i < |b.cards| && 0 <= j < |b.cards| && i != j ensures b.cards[i].id != b.cards[j].id {
      assert b.cards[i].id == dealt[i].id && b.cards[j].id == dealt[j].id;
    }
    forall k | 0 <= k < |b.flippedCards| ensures b.flippedCards[k] in FreshDeck() {
      assert b.flippedCards[k] in multiset(dealt);
    }
  }

  // ---------------------------------------------------------------------
  // The game component
  // ---------------------------------------------------------------------

  /** The state of the memory game component. The fields are its React state
      variables, `pendingReset` is the pair a scheduled mismatch timeout will
      turn back (empty when no timeout is pending) and `dealt` records the
      deck as the last shuffle dealt it. */
  class MemoryGame {
    var cards: seq<Card>
    var flippedCards: seq<Card>
    var solvedCards: seq<int>
    var attempts: nat
    var gameOver: bool
    var pendingReset: seq<Card>
    ghost var dealt: seq<Card>

    /** The fields as a board. */
    function Snapshot(): Board
      reads this
    {
      Board(cards, flippedCards, solvedCards, attempts, gameOver, pendingReset)
    }

    ghost predicate Valid()
      reads this
    {
      BoardValid(Snapshot(), dealt)
    }

    /** Mounting the component: the initial state followed by the
        `initializeGame` effect. */
    constructor (js: seq<int>)
      requires DrawsFit(|FreshDeck()| - 1, js)
      ensures Valid()
      ensures Snapshot() == Deal(Shuffled(FreshDeck(), js)) && !gameOver
    {
      cards, flippedCards, solvedCards, attempts := [], [], [], 0;
      gameOver, pendingReset, dealt := false, [], [];
      new;
      InitializeGame(js);
    }

    /** `initializeGame`: deal a freshly built and shuffled deck, clear the
        turned and solved lists and the attempt counter. */
    method InitializeGame(js: seq<int>)
      requires DrawsFit(|FreshDeck()| - 1, js)
      modifies this
      ensures Valid()
      ensures Snapshot() == Deal(Shuffled(FreshDeck(), js)) && !gameOver
      ensures multiset(cards) == multiset(FreshDeck())
    {
      var deck := DealDeck(js);
      DealValid(js);
      cards := deck;
      flippedCards := [];
      solvedCards := [];
      attempts := 0;
      pendingReset := [];
      dealt := deck;
      gameOver := GameOver(solvedCards, |cards|, attempts);
    }

    /** `handleCardClick`, followed by the effects the click sets off. */
    method HandleCardClick(id: int)
      requires Valid()
      modifies this`cards, this`flippedCards, this`solvedCards, this`attempts, this`gameOver, this`pendingReset
      ensures Snapshot() == Click(old(Snapshot()), id)
      ensures Valid()
    {
      ghost var b := Snapshot();
      if ClickIgnored(Snapshot(), id) {
        return;
      }
      TurnUpClicked(id);
      CheckPair();
      CheckGameOver();
      assert Snapshot() == Click(b, id);
      ClickKeepsValid(b, dealt, id);
    }

    /** The state update of `handleCardClick` past its guard: the card with
        `id` is turned face up and appended to `flippedCards`. */
    method TurnUpClicked(id: int)
      requires FindCard(cards, id).Some?
      modifies this`cards, this`flippedCards
      ensures Snapshot() == TurnCardUp(old(Snapshot()), id)
    {
      var clicked := FindCard(cards, id).value;
      flippedCards := flippedCards + [clicked];
      cards := TurnUp(cards, id);
    }

    /** The match effect, run when `flippedCards` or `solvedCards` changes. */
    method CheckPair()
      modifies this`flippedCards, this`solvedCards, this`attempts, this`pendingReset
      ensures Snapshot() == PairEffect(old(Snapshot()))
    {
      if |flippedCards| == 2 {
        attempts := attempts + 1;
        var first, second := flippedCards[0], flippedCards[1];
        if IsMatch(first, second) {
          solvedCards := solvedCards + [first.id, second.id];
          flippedCards := [];
        } else {
          pendingReset := flippedCards;
        }
      }
    }

    /** The `gameOver` effect, run when `solvedCards`, `cards.length` or
        `attempts` changes. */
    method CheckGameOver()
      modifies this`gameOver
      ensures Snapshot() == GameOverEffect(old(Snapshot()))
    {
      gameOver := GameOver(solvedCards, |cards|, attempts);
    }

    /** The body of the mismatch timeout. */
    method ResolveMismatch()
      requires Valid() && pendingReset != []
      modifies this`cards, this`flippedCards, this`pendingReset
      ensures Snapshot() == Timeout(old(Snapshot()))
      ensures Valid()
    {
      TimeoutKeepsValid(Snapshot(), dealt);
      cards := TurnDown(cards, pendingReset);
      flippedCards := [];
      pendingReset := [];
    }

    /** `handleRestart`. */
    method HandleRestart(js: seq<int>)
      requires DrawsFit(|FreshDeck()| - 1, js)
      modifies this
      ensures Valid()
      ensures Snapshot() == Deal(Shuffled(FreshDeck(), js)) && !gameOver
      ensures multiset(cards) == multiset(FreshDeck())
    {
      InitializeGame(js);
    }
  }
}
