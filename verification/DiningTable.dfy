/** The critical sections of `user/tests/test20/philosophe.c` on the arrays in shared memory. */
module DiningTable {
  import opened Dining

  class Philo {
    var f: array<int>
    var bloque: array<int>
    var etat: array<char>
    var s: array<nat>  // counts of the philosophers' semaphores

    ghost predicate Valid()
      reads this
    {
      3 <= f.Length == bloque.Length == etat.Length == s.Length && f != bloque
    }

    ghost function View(): (m: Shared)
      reads this, f, bloque, etat, s
      requires Valid()
      ensures Sized(m, f.Length)
    {
      Shared(f[..], bloque[..], etat[..], s[..])
    }

    /** The memory as test20 prepares it. */
    constructor (n: nat)
      requires n >= 3
      ensures Valid() && View() == Initial(n).m
      ensures fresh(f) && fresh(bloque) && fresh(etat) && fresh(s)
    {
      f := new int[n](_ => 0);
      bloque := new int[n](_ => 0);
      etat := new char[n](_ => '-');
      s := new nat[n](_ => 0);
    }

    /** test */
    method Test(i: nat) returns (free: bool)
      requires Valid() && i < f.Length
      ensures free == Dining.Test(View(), i)
    {
      free := f[i] == 0 && f[(i + 1) % f.Length] == 0;
    }

    /** xsignal on a philosopher's semaphore */
    method Signal(i: nat)
      requires Valid() && i < f.Length
      modifies s
      ensures s[..] == old(s[..])[i := old(s[i]) + 1]
    {
      s[i] := s[i] + 1;
    }

    /** The section of prendre_fourchettes between xwait and xsignal on the mutex. */
    method Prendre(i: nat)
      requires Valid() && i < f.Length
      modifies f, bloque, s
      ensures View() == Body(old(View()), i, Section.Prendre)
    {
      var free := Test(i);
      if free {
        f[i] := 1;
        f[(i + 1) % f.Length] := 1;
        Signal(i);
      } else {
        bloque[i] := 1;
      }
    }

    /** One half of poser_fourchettes: the fork own goes to the neighbour, or on the table. */
    method Passer(own: nat, neighbour: nat, other: nat)
      requires Valid() && own < f.Length && neighbour < f.Length && other < f.Length
      modifies f, bloque, s
      ensures View() == Pass(old(View()), own, neighbour, other)
    {
      if bloque[neighbour] != 0 && f[other] == 0 {
        f[other] := 1;
        bloque[neighbour] := 0;
        Signal(neighbour);
      } else {
        f[own] := 0;
      }
    }

    /** The section of poser_fourchettes. */
    method Poser(i: nat)
      requires Valid() && i < f.Length
      modifies f, bloque, s
      ensures View() == Body(old(View()), i, Section.Poser)
    {
      var n := f.Length;
      var left, right, second := (i + n - 1) % n, (i + 1) % n, (i + 2) % n;
      Places(i, n);
      Passer(i, left, left);
      Passer(right, right, second);
    }

    /** The sections of manger and penser. */
    method Montrer(i: nat, sec: Section)
      requires Valid() && i < f.Length && sec != Section.Prendre && sec != Section.Poser
      modifies etat
      ensures View() == Body(old(View()), i, sec)
    {
      etat[i] := match sec case Mange => 'm' case Pense => 'p' case _ => '-';
    }
  }

  lemma Places(i: nat, n: nat)
    requires i < n && n >= 3
    ensures (i + n - 1) % n == Left(i, n) && (i + 1) % n == Right(i, n) && (i + 2) % n == Right(Right(i, n), n)
  {
    if i + 2 >= n { Wrap(i + 2 - n, n); }
  }
}
