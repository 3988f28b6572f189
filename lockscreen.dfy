/** The PIN lock: a keypad that collects up to four digits, a submit that unlocks on the
    fixed PIN, and a clear key. */
module LockScreen {
  import opened JsValues

  const MaxPinLength := 4
  const AdminPin := "1234"

  /** The entered text after pressing digit `d`: appended while fewer than four digits
      are entered, ignored once four are. */
  function Pressed(pin: string, d: nat): (r: string)
    requires d < 10
    ensures |pin| < MaxPinLength ==> r == pin + [DigitChar(d)]
    ensures |pin| >= MaxPinLength ==> r == pin
  {
    if |pin| < MaxPinLength then pin + [DigitChar(d)] else pin
  }

  predicate AllKeys(ds: seq<nat>)
  {
    forall i :: 0 <= i < |ds| ==> ds[i] < 10
  }

  /** The entered text after pressing the digits `ds` in order. */
  function PressedAll(pin: string, ds: seq<nat>): string
    requires AllKeys(ds)
    decreases |ds|
  {
    if ds == [] then pin else PressedAll(Pressed(pin, ds[0]), ds[1..])
  }

  /** Whatever is pressed, a PIN of at most four digits stays at most four digits long,
      and while there is room every digit pressed is appended in order. */
  lemma {:induction false} PressedAllLength(pin: string, ds: seq<nat>)
    requires AllKeys(ds) && |pin| <= MaxPinLength
    ensures |PressedAll(pin, ds)| == if |pin| + |ds| < MaxPinLength then |pin| + |ds| else MaxPinLength
    ensures |pin| + |ds| <= MaxPinLength ==>
            PressedAll(pin, ds) == pin + seq(|ds|, i requires 0 <= i < |ds| => DigitChar(ds[i]))
    decreases |ds|
  {
    if ds != [] {
      var p := Pressed(pin, ds[0]);
      PressedAllLength(p, ds[1..]);
      if |pin| + |ds| <= MaxPinLength {
        var tail := seq(|ds| - 1, i requires 0 <= i < |ds| - 1 => DigitChar(ds[1..][i]));
        var all := seq(|ds|, i requires 0 <= i < |ds| => DigitChar(ds[i]));
        assert all == [DigitChar(ds[0])] + tail;
      }
    }
  }

  /** Pressing 1, 2, 3, 4 from an empty PIN enters the admin PIN, and further presses
      change nothing. */
  lemma AdminPinReachable(more: seq<nat>)
    requires AllKeys(more)
    ensures PressedAll("", [1, 2, 3, 4]) == AdminPin
    ensures PressedAll(AdminPin, more) == AdminPin
  {
    assert PressedAll("", [1, 2, 3, 4]) == "1234";
    StuckAtFour(AdminPin, more);
  }

  lemma {:induction false} StuckAtFour(pin: string, ds: seq<nat>)
    requires AllKeys(ds) && |pin| >= MaxPinLength
    ensures PressedAll(pin, ds) == pin
    decreases |ds|
  {
    if ds != [] {
      StuckAtFour(pin, ds[1..]);
    }
  }

  /** The lock screen's state. */
  class PinPad {
    var pin: string
    var error: bool

    ghost predicate Valid()
      reads this
    {
      |pin| <= MaxPinLength && forall i :: 0 <= i < |pin| ==> IsDigit(pin[i])
    }

    constructor ()
      ensures Valid() && pin == "" && !error
    {
      pin, error := "", false;
    }

    /** `handlePress(num)`: below four digits, append the digit and clear the error;
        at four, do nothing. */
    method HandlePress(d: nat)
      requires Valid() && d < 10
      modifies this
      ensures Valid()
      ensures pin == Pressed(old(pin), d)
      ensures |old(pin)| < MaxPinLength ==> !error
      ensures |old(pin)| >= MaxPinLength ==> error == old(error)
    {
      if |pin| < MaxPinLength {
        pin := pin + [DigitChar(d)];
        error := false;
      }
    }

    /** `handleSubmit`: the admin PIN unlocks and leaves the state alone; anything else
        sets the error and empties the PIN. */
    method HandleSubmit() returns (unlock: bool)
      requires Valid()
      modifies this
      ensures Valid()
      ensures unlock <==> old(pin) == AdminPin
      ensures unlock ==> pin == old(pin) && error == old(error)
      ensures !unlock ==> pin == "" && error
    {
      if pin == AdminPin {
        return true;
      }
      error := true;
      pin := "";
      return false;
    }

    /** The CLR key: empty the PIN, keep the error message. */
    method Clear()
      requires Valid()
      modifies this
      ensures Valid()
      ensures pin == "" && error == old(error)
    {
      pin := "";
    }

    /** The four PIN dots: dot `i` is lit exactly when at least `i + 1` digits are
        entered, so the lit dots are a prefix whose length is the PIN's. */
    function Dots(): (r: seq<bool>)
      reads this
      ensures |r| == MaxPinLength
      ensures forall i :: 0 <= i < |r| ==> (r[i] <==> i < |pin|)
      ensures forall i, j :: 0 <= i <= j < |r| && r[j] ==> r[i]
    {
      var n := |pin|;
      [0 < n, 1 < n, 2 < n, 3 < n]
    }
  }
}
