/** The page turner behind the four buttons of a long answer. */
module Paginators {

  const TWO_TO_THE_16: nat := 0x1_0000

  datatype Button = SkipFirst | Backward | Forward | SkipLast

  /** The page shown after a click; the page number is an unsigned 16-bit variable. */
  function Click(current: nat, size: nat, button: Button): (page: nat)
    requires current < TWO_TO_THE_16 && size > 0
    ensures page < TWO_TO_THE_16
  {
    RemainderAtMost((current + 1) % TWO_TO_THE_16, size);
    match button
    case SkipFirst => 0
    case Backward => (if current == 0 then size - 1 else current - 1) % TWO_TO_THE_16
    case Forward => (current + 1) % TWO_TO_THE_16 % size
    case SkipLast => (size - 1) % TWO_TO_THE_16
  }

  lemma RemainderAtMost(a: nat, size: nat)
    requires size > 0
    ensures a % size <= a
  {
  }

  function Clicks(current: nat, size: nat, buttons: seq<Button>): (page: nat)
    requires current < TWO_TO_THE_16 && size > 0
    ensures page < TWO_TO_THE_16
  {
    if buttons == [] then current
    else Click(Clicks(current, size, buttons[..|buttons| - 1]), size, buttons[|buttons| - 1])
  }

  class MessagePaginator {
    const useEmbeds: bool
    const pages: seq<string>
    const messages: seq<string>
    var currentPage: nat
    var embeds: seq<string>  // the embeds of the message that is edited
    var content: string

    /** Without pages there is nothing to turn: the remainder by the size would be undefined. */
    ghost predicate Valid()
      reads this
    {
      Size() > 0 && currentPage < Size() && currentPage < TWO_TO_THE_16
    }

    function Size(): nat {
      if useEmbeds then |pages| else |messages|
    }

    /** The page on display is the current one. */
    ghost predicate ShowsCurrent()
      requires Valid()
      reads this
    {
      if useEmbeds then embeds == [pages[currentPage]] else content == messages[currentPage]
    }

    constructor (useEmbeds: bool, pages: seq<string>, messages: seq<string>)
      requires if useEmbeds then pages != [] else messages != []
      ensures this.useEmbeds == useEmbeds && this.pages == pages && this.messages == messages
      ensures Valid() && currentPage == 0
    {
      this.useEmbeds, this.pages, this.messages := useEmbeds, pages, messages;
      currentPage, embeds, content := 0, pages, "";
    }

    method Show()
      requires Valid()
      modifies this`embeds, this`content
      ensures Valid() && ShowsCurrent()
      ensures if useEmbeds then content == old(content) else embeds == old(embeds)
    {
      if useEmbeds {
        embeds := [];
        embeds := embeds + [pages[currentPage]];
      } else {
        content := messages[currentPage];
      }
    }

    method GoForward()
      requires Valid()
      modifies this
      ensures Valid() && ShowsCurrent() && currentPage == Click(old(currentPage), Size(), Forward)
      ensures if useEmbeds then content == old(content) else embeds == old(embeds)
    {
      ForwardValue(currentPage, Size());
      currentPage := (currentPage + 1) % TWO_TO_THE_16 % Size();
      Show();
    }

    method GoBackward()
      requires Valid()
      modifies this
      ensures Valid() && ShowsCurrent() && currentPage == Click(old(currentPage), Size(), Backward)
      ensures if useEmbeds then content == old(content) else embeds == old(embeds)
    {
      if currentPage == 0 {
        currentPage := (Size() - 1) % TWO_TO_THE_16;
      } else {
        currentPage := currentPage - 1;
      }
      Show();
    }

    method GoLast()
      requires Valid()
      modifies this
      ensures Valid() && ShowsCurrent() && currentPage == Click(old(currentPage), Size(), SkipLast)
      ensures if useEmbeds then content == old(content) else embeds == old(embeds)
    {
      currentPage := (Size() - 1) % TWO_TO_THE_16;
      Show();
    }

    method GoFirst()
      requires Valid()
      modifies this
      ensures Valid() && ShowsCurrent() && currentPage == Click(old(currentPage), Size(), SkipFirst)
      ensures if useEmbeds then content == old(content) else embeds == old(embeds)
    {
      currentPage := 0;
      Show();
    }
  }

  /** Turning forward without the remainders. */
  lemma ForwardValue(c: nat, size: nat)
    requires c < size && c < TWO_TO_THE_16
    ensures Click(c, size, Forward) == if c + 1 == size || c + 1 == TWO_TO_THE_16 then 0 else c + 1
  {
    if c + 1 == TWO_TO_THE_16 {
      Wrap(0, size);
    } else if c + 1 == size {
      Division(size, size, 1, 0);
    } else {
      Wrap(c + 1, size);
    }
  }

  /** Where each button leads, on however many pages. */
  lemma ClickValues(c: nat, size: nat)
    requires c < size && c < 65536
    ensures Click(c, size, Forward) == if c + 1 == size || c == 65535 then 0 else c + 1
    ensures Click(c, size, Backward) == if c > 0 then c - 1 else (size - 1) % 65536
    ensures Click(c, size, SkipFirst) == 0 && Click(c, size, SkipLast) == (size - 1) % 65536
  {
    ForwardValue(c, size);
    assert c > 0 ==> (c - 1) % 65536 == c - 1;
  }

  lemma ClickStaysInRange(c: nat, size: nat, button: Button)
    requires c < size && c < TWO_TO_THE_16
    ensures Click(c, size, button) < size
  {
    ForwardValue(c, size);
  }

  /** Every run of clicks stays on an existing page. */
  lemma {:induction false} ClicksStayInRange(current: nat, size: nat, buttons: seq<Button>)
    requires current < size && current < TWO_TO_THE_16
    ensures Clicks(current, size, buttons) < size
  {
    hide Click;
    if buttons != [] {
      ClicksStayInRange(current, size, buttons[..|buttons| - 1]);
      ClickStaysInRange(Clicks(current, size, buttons[..|buttons| - 1]), size, buttons[|buttons| - 1]);
    }
  }

  /** Forward and backward undo each other on page `c`, and the last page can be reached from it. */
  ghost predicate ButtonsWork(c: nat, size: nat)
    requires c < size && c < TWO_TO_THE_16
  {
    && Click(Click(c, size, Forward), size, Backward) == c
    && Click(Click(c, size, Backward), size, Forward) == c
    && Click(c, size, SkipLast) == size - 1
  }

  /** They do so on every page exactly when a 16-bit number can name every page. */
  lemma ButtonsWorkUpTo65536Pages(size: nat)
    requires size > 0
    ensures size <= 65536 <==> forall c: nat :: c < size && c < 65536 ==> ButtonsWork(c, size)
  {
    hide ButtonsWork;
    if size <= TWO_TO_THE_16 {
      forall c: nat | c < size
        ensures ButtonsWork(c, size)
      {
        ButtonsWorkAt(c, size);
      }
    } else {
      LastPageOutOfReach(size);
    }
  }

  lemma ButtonsWorkAt(c: nat, size: nat)
    requires c < size <= TWO_TO_THE_16
    ensures ButtonsWork(c, size)
  {
    ForwardValue(c, size);
    ForwardValue(Click(c, size, Backward), size);
  }

  lemma LastPageOutOfReach(size: nat)
    requires size > TWO_TO_THE_16
    ensures !ButtonsWork(0, size)
  {
    assert Click(0, size, SkipLast) < TWO_TO_THE_16 <= size - 1;
  }

  function Forwards(k: nat): seq<Button> {
    seq(k, _ => Forward)
  }

  /** With at most 65536 pages, k clicks forward move k pages on, around the end. */
  lemma {:induction false} ForwardsAdd(current: nat, size: nat, k: nat)
    requires current < size <= TWO_TO_THE_16
    ensures Clicks(current, size, Forwards(k)) == (current + k) % size
  {
    hide Click;
    if k == 0 {
      Wrap(current, size);
    } else {
      assert Forwards(k)[..k - 1] == Forwards(k - 1);
      ForwardsAdd(current, size, k - 1);
      ForwardValue((current + k - 1) % size, size);
      NextIndex((current + k - 1) % size, size);
      OneMore(current + k - 1, size);
    }
  }

  lemma {:induction false} ClicksAppend(current: nat, size: nat, a: seq<Button>, b: seq<Button>)
    requires current < TWO_TO_THE_16 && size > 0
    ensures Clicks(current, size, a + b) == Clicks(Clicks(current, size, a), size, b)
    decreases |b|
  {
    hide Click;
    if b == [] {
      assert a + b == a;
    } else {
      ClicksAppend(current, size, a, b[..|b| - 1]);
      assert (a + b)[..|a + b| - 1] == a + b[..|b| - 1];
    }
  }

  /** From every page every page can be reached: to the first one, then forward. */
  lemma EveryPageInReach(current: nat, target: nat, size: nat)
    requires current < size <= TWO_TO_THE_16 && target < size
    ensures Clicks(current, size, [SkipFirst] + Forwards(target)) == target
  {
    ClicksAppend(current, size, [SkipFirst], Forwards(target));
    assert [SkipFirst][..0] == [];
    assert Clicks(current, size, [SkipFirst]) == 0;
    ForwardsAdd(0, size, target);
    Wrap(target, size);
  }

  lemma NextIndex(b: nat, size: nat)
    requires b < size
    ensures (b + 1) % size == if b + 1 == size then 0 else b + 1
  {
    Division(b + 1, size, if b + 1 == size then 1 else 0, if b + 1 == size then 0 else b + 1);
  }

  lemma Wrap(c: nat, size: nat)
    requires c < size
    ensures c % size == c
  {
  }

  lemma OneMore(a: nat, size: nat)
    requires size > 0
    ensures (a % size + 1) % size == (a + 1) % size
    ensures a % size + 1 <= size
  {
    var q, r := a / size, a % size;
    assert a == q * size + r;
    if r + 1 < size {
      Division(a + 1, size, q, r + 1);
      Division(r + 1, size, 0, r + 1);
    } else {
      assert a + 1 == (q + 1) * size + 0;
      Division(a + 1, size, q + 1, 0);
      Division(r + 1, size, 1, 0);
    }
  }

  lemma Division(a: nat, size: nat, q: nat, r: nat)
    requires size > 0 && a == q * size + r && r < size
    ensures a % size == r
  {
    var d := a / size - q;
    assert a == (a / size) * size + a % size;
    assert d * size == r - a % size;
    Multiple(d, size);
  }

  lemma Multiple(d: int, size: int)
    requires size > 0
    ensures d > 0 ==> d * size >= size
    ensures d < 0 ==> d * size <= -size
  {
  }
}
