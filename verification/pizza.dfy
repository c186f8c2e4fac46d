/** The pizza value objects of pizza.py: a size-checked constructor,
    equality by name, size and recipe (order of the ingredients aside),
    and the one-entry receipt.

    The classes are the base `Pizza` and its three subclasses. A Python
    object that is not a `Pizza` is represented by `Other`. */
module Pizzas {
  import opened Wrappers
  import opened StringOrder

  datatype Kind = Base | Margherita | Pepperoni | Hawaiian

  /** `cls.__name__`. */
  function ClassName(k: Kind): string
  {
    match k
    case Base => "Pizza"
    case Margherita => "Margherita"
    case Pepperoni => "Pepperoni"
    case Hawaiian => "Hawaiian"
  }

  /** The class attribute `receipt`: the base class has none (lines 65, 73, 81). */
  function Recipe(k: Kind): Option<seq<string>>
  {
    match k
    case Base => None
    case Margherita => Some(["tomato sauce", "mozzarella", "tomatoes"])
    case Pepperoni => Some(["tomato sauce", "mozzarella", "pepperoni"])
    case Hawaiian => Some(["tomato sauce", "mozzarella", "chicken", "pineapple"])
  }

  /** The class attribute `img` (the base class's is empty, line 11). */
  function Image(k: Kind): string
  {
    match k
    case Base => ""
    case Margherita => "\U{1F9C0}"
    case Pepperoni => "\U{1F355}"
    case Hawaiian => "\U{1F34D}"
  }

  /** The instance attributes set by `__init__`. */
  datatype Pizza = Pizza(name: string, size: string, receipt: seq<string>, img: string)

  /** A Python value on the right of `==`: a pizza or anything else. */
  datatype Value = PizzaValue(pizza: Pizza) | Other

  /** The sizes on offer. */
  predicate ValidSize(size: string)
  {
    size == "L" || size == "XL"
  }

  const DefaultSize: string := "L"

  const SizeMessage: string := "\U{0414}\U{043E}\U{0441}\U{0442}\U{0443}\U{043F}\U{043D}\U{044B} \U{0442}\U{043E}\U{043B}\U{044C}\U{043A}\U{043E} \U{0440}\U{0430}\U{043C}\U{0435}\U{0440}\U{044B} \"L\" \U{0438} \"XL\""

  /** `Kind(size)`: the size is checked first, then the class's recipe
      is read, which fails on the base class. */
  function New(k: Kind, size: string): (r: Result<Pizza>)
    ensures r.Ok? <==> ValidSize(size) && k != Base
    ensures !ValidSize(size) ==> r == Err(ValueError(SizeMessage))
    ensures ValidSize(size) && k == Base ==> r == Err(AttributeError("receipt"))
    ensures r.Ok? ==>
      && r.value.name == ClassName(k) && r.value.size == size
      && Some(r.value.receipt) == Recipe(k) && r.value.img == Image(k)
  {
    if !ValidSize(size) then Err(ValueError(SizeMessage))
    else match Recipe(k)
      case None => Err(AttributeError("receipt"))
      case Some(recipe) => Ok(Pizza(ClassName(k), size, recipe, Image(k)))
  }

  /** What `__eq__` returns: a boolean, or `NotImplemented` for a non-pizza. */
  datatype EqResult = Bool(b: bool) | NotImplemented

  /** `Pizza.__eq__`: same name, same sorted recipe, same size. */
  function Eq(p: Pizza, other: Value): (r: EqResult)
    ensures other.Other? <==> r.NotImplemented?
    ensures other.PizzaValue? ==> r.Bool?
    ensures other.PizzaValue? ==>
      (r.b <==> && p.name == other.pizza.name && p.size == other.pizza.size
                && multiset(p.receipt) == multiset(other.pizza.receipt))
  {
    match other
    case Other => NotImplemented
    case PizzaValue(q) =>
      SortEqualIffPermutation(p.receipt, q.receipt);
      Bool(p.name == q.name && Sort(p.receipt) == Sort(q.receipt) && p.size == q.size)
  }

  /** The `==` operator: when `__eq__` answers `NotImplemented` the other
      operand is asked, and when it does not know either Python falls back
      to identity, which a pizza and a non-pizza never share. Two pizzas are
      equal exactly when their names and sizes agree and their recipes are
      permutations of each other. */
  function Equals(p: Pizza, other: Value): (r: bool)
    ensures other.Other? ==> !r
    ensures other.PizzaValue? ==>
      (r <==> && p.name == other.pizza.name && p.size == other.pizza.size
              && multiset(p.receipt) == multiset(other.pizza.receipt))
  {
    match Eq(p, other)
    case Bool(b) => b
    case NotImplemented => false
  }

  /** Pizza equality is an equivalence relation. */
  lemma EqualsEquivalence(p: Pizza, q: Pizza, t: Pizza)
    ensures Equals(p, PizzaValue(p))
    ensures Equals(p, PizzaValue(q)) ==> Equals(q, PizzaValue(p))
    ensures Equals(p, PizzaValue(q)) && Equals(q, PizzaValue(t)) ==> Equals(p, PizzaValue(t))
  {
  }

  /** Each class has its own name. */
  lemma ClassNameInjective(k1: Kind, k2: Kind)
    requires k1 != k2
    ensures ClassName(k1) != ClassName(k2)
  {
    assert ClassName(k1)[0] != ClassName(k2)[0] || |ClassName(k1)| != |ClassName(k2)|;
  }

  /** Constructed pizzas are equal exactly when they are of the same kind
      and size. */
  lemma NewEquals(k1: Kind, s1: string, k2: Kind, s2: string)
    requires New(k1, s1).Ok? && New(k2, s2).Ok?
    ensures Equals(New(k1, s1).value, PizzaValue(New(k2, s2).value)) <==> k1 == k2 && s1 == s2
  {
    var p, q := New(k1, s1).value, New(k2, s2).value;
    if k1 != k2 {
      ClassNameInjective(k1, k2);
      assert p.name != q.name;
    }
  }

  /** `get_receipt`: a one-entry dict from the pizza's name to its recipe. */
  function GetReceipt(p: Pizza): (r: map<string, seq<string>>)
    ensures |r| == 1 && p.name in r && r[p.name] == p.receipt
  {
    map[p.name := p.receipt]
  }

  /** Equal pizzas give receipts with the same key whose recipes are
      permutations of each other. */
  lemma GetReceiptEquals(p: Pizza, q: Pizza)
    requires Equals(p, PizzaValue(q))
    ensures GetReceipt(p).Keys == GetReceipt(q).Keys
    ensures multiset(GetReceipt(p)[p.name]) == multiset(GetReceipt(q)[q.name])
  {
  }

  /** The size check: `Pepperoni('XXL')` raises `ValueError`. */
  lemma OversizeRejected()
    ensures New(Pepperoni, "XXL").Err? && New(Pepperoni, "XXL").error.ValueError?
  {
  }

  /** `Margherita() != Pepperoni()`, `Pepperoni() == Pepperoni()` and
      `Pepperoni('L') != Pepperoni('XL')`. */
  lemma DifferentPizzas()
    ensures !Equals(New(Margherita, DefaultSize).value, PizzaValue(New(Pepperoni, DefaultSize).value))
    ensures Equals(New(Pepperoni, DefaultSize).value, PizzaValue(New(Pepperoni, DefaultSize).value))
    ensures !Equals(New(Pepperoni, "L").value, PizzaValue(New(Pepperoni, "XL").value))
  {
    NewEquals(Margherita, DefaultSize, Pepperoni, DefaultSize);
    NewEquals(Pepperoni, DefaultSize, Pepperoni, DefaultSize);
    NewEquals(Pepperoni, "L", Pepperoni, "XL");
  }

  /** The recipe of each kind of pizza, in order. */
  lemma Recipes()
    ensures New(Margherita, DefaultSize).value.receipt == ["tomato sauce", "mozzarella", "tomatoes"]
    ensures New(Pepperoni, DefaultSize).value.receipt == ["tomato sauce", "mozzarella", "pepperoni"]
    ensures New(Hawaiian, DefaultSize).value.receipt == ["tomato sauce", "mozzarella", "chicken", "pineapple"]
  {
  }

  /** The base class cannot be instantiated, whatever the size. */
  lemma BaseRejected(size: string)
    ensures New(Base, size).Err?
  {
  }
}
