"""Writes SizeCertificates.dfy and SizePrimes.dfy from the size table in lws_table.c.

usage: certificates.py path/to/lws_table.c output-directory

For every listed size n that trial division up to 150 does not settle, a certificate by Pocklington's
criterion is chosen: a product of at most four prime factors of n - 1, with n at most its square, and a base
whose power to that product is 1 modulo n. Large factors need certificates of their own.
"""
import functools
import itertools
import math
import re
import sys

SMALL = 151 * 151    # below this, trial division is enough
MAX_FACTORS = 4
GROUP = 6            # small primes to a lemma
AVOID = {413713}     # not used as a factor


def sizes(path):
    body = open(path).read().split("lws_table_sizes[] = {")[1].split("}")[0]
    return [int(x) for x in re.findall(r"\d+", body)]


def factor(n):
    powers, d = {}, 2
    while d * d <= n:
        while n % d == 0:
            powers[d] = powers.get(d, 0) + 1
            n //= d
        d += 1
    if n > 1:
        powers[n] = powers.get(n, 0) + 1
    return powers


def digits(e):
    """The octal digits a climb to the exponent e takes, in fours."""
    return 0 if e <= 1 else (len(oct(e)) - 2 + 3) // 4 * 4


def steps(total, primes):
    return sum(digits(total // q) for q in primes) + (1 if primes[0] == 2 else digits(primes[0]))


@functools.lru_cache(None)
def best(n):
    """The steps of the cheapest certificate, its primes, factors and product, and the primes it rests on."""
    if n < SMALL:
        return 0, None, frozenset()
    powers = factor(n - 1)
    choice = None
    for size in range(1, MAX_FACTORS + 1):
        for primes in itertools.combinations(sorted(powers), size):
            for exps in itertools.product(*[range(1, powers[p] + 1) for p in primes]):
                if sum(exps) > MAX_FACTORS or AVOID & set(primes):
                    continue
                total = math.prod(p ** e for p, e in zip(primes, exps))
                if total * total < n:
                    continue
                needed = set()
                cost, order = min((steps(total, o), o) for o in
                                  ((q,) + tuple(p for p in primes if p != q) for q in primes))
                for q in primes:
                    if q >= SMALL:
                        needed |= {q} | best(q)[2]
                weight = cost + 6 * len(primes) + sum(best(p)[0] + 10 for p in needed)
                factors = [p for p, e in zip(primes, exps) for _ in range(e)]
                if choice is None or weight < choice[3]:
                    choice = cost, (order, factors, total), frozenset(needed), weight
    return choice[:3]


def find_base(n, total, primes):
    for a in range(2, 10000):
        b = pow(a, (n - 1) // total, n)
        if pow(b, total, n) == 1 and all(math.gcd(pow(b, total // q, n) - 1, n) == 1 for q in primes):
            return b
    raise ValueError(n)


def climb(n, b, target):
    if target == 2:
        return [f"Double({n}, {b}, 1, {b}, 2, {b * b % n});"], b * b % n
    lines, ds, e, x = [], [int(c) for c in oct(target)[2:]], 0, 1
    ds = [0] * (-len(ds) % 4) + ds
    for i in range(0, len(ds), 4):
        four, xs, f = ds[i:i + 4], [x], e
        for d in four:
            xs.append(pow(xs[-1], 8, n) * pow(b, d, n) % n)
            f = 8 * f + d
        lines.append(f"Climb({n}, {b}, {e}, {f}, {', '.join(map(str, four + xs))});")
        e, x = f, xs[-1]
    return lines, x


def certificate(n, call):
    order, factors, total = best(n)[1]
    b = find_base(n, total, order)
    body = ["hide IsPrime, At, Apart;"] + list(dict.fromkeys(call(q) for q in sorted(set(factors))))
    body.append(f"Begin({n}, {b});")
    first = None
    for q in order:
        e, x = total // q, b
        if e > 1:
            lines, x = climb(n, b, e)
            body += lines
        y = pow(x - 1, -1, n)
        body.append(f"Inverse({n}, {b}, {q}, {total}, {e}, {x}, {y}, {y + 1});")
        first = first or (e, x, q)
    e, x, q = first
    if q == 2:
        body.append(f"Double({n}, {b}, {e}, {x}, {total}, 1);")
    else:
        if x != b:
            body.append(f"Begin({n}, {x});")
        body += climb(n, x, q)[0]
        body.append(f"Compose({n}, {b}, {e}, {x}, {q}, 1, {total});")
    args = [n, b, total] if len(factors) == 1 else [n, b] + factors + [total]
    body.append(f"Certificate{len(factors)}({', '.join(map(str, args))});")
    out = [f"  lemma Prime{n}()", f"    ensures IsPrime({n})", "  {"]
    for statement in body:
        line = "    " + statement
        while len(line) > 116:
            k = line.rfind(", ", 0, 116) + 1
            out.append(line[:k])
            line = "      " + line[k + 1:]
        out.append(line)
    return out + ["  }", ""]


def cases(prefix, count, guard, body):
    out = []
    for k in range(count):
        head = f"if {guard(k)} {{" if k < count - 1 else "{"
        out += ["    " + ("} else " if k else "") + head, "      " + body(k)]
    return prefix + out + ["    }", "  }", ""]


def main(source, target):
    table = sizes(source)
    large = sorted(set().union(*({n} | best(n)[2] for n in table if n >= SMALL)))
    small = sorted({q for n in large for q in best(n)[1][1] if q < SMALL} | {n for n in table if n < SMALL})
    group = {q: i // GROUP for i, q in enumerate(small)}

    def call(q):
        return f"Small{group[q]}();" if q < SMALL else f"Prime{q}();"

    out = ["/** Certificates by Pocklington's criterion for the listed sizes (src/lws_table.c), and for primes these need. */",
           "module SizeCertificates {", "  import opened Primes", "  import opened Primality", ""]
    for i in range(0, len(small), GROUP):
        some = small[i:i + GROUP]
        out += [f"  lemma Small{i // GROUP}()"] + [f"    ensures IsPrime({q})" for q in some] + ["  {"]
        out += [f"    {'SmallPrime' if q > 150 else 'TinyPrime'}({q});" for q in some] + ["  }", ""]
    for n in large:
        out += certificate(n, call)
    out[-1] = "}"
    open(f"{target}/SizeCertificates.dfy", "w").write("\n".join(out) + "\n")

    rows = len(table) // 8
    out = ["/** Every listed size is prime, so double hashing reaches every slot of a table of that size. */",
           "module SizePrimes {", "  import opened Primes", "  import opened Primality",
           "  import opened SizeCertificates", "  import opened Sizes", ""]
    for r in range(rows):
        out += cases([f"  lemma Row{r}IsPrime(i: nat)", "    requires i < 8", f"    ensures IsPrime(Row{r}(i))", "  {",
                      "    hide IsPrime;"],
                     8, lambda k: f"i == {k}", lambda k: call(table[8 * r + k]))
    out += cases(["  lemma SizeIsPrime(i: nat)", "    requires i < SIZES_N", "    ensures IsPrime(SizeAt(i))", "  {",
                  "    hide IsPrime, " + ", ".join(f"Row{r}" for r in range(rows)) + ";"],
                 rows, lambda r: f"i < {8 * r + 8}", lambda r: f"Row{r}IsPrime(i - {8 * r});")
    out += ["  lemma ListedIsPrime(n: nat)", "    requires Listed(n)", "    ensures IsPrime(n)", "  {",
            "    var i :| 0 <= i < SIZES_N && SizeAt(i) == n;", "    SizeIsPrime(i);", "  }", "}"]
    open(f"{target}/SizePrimes.dfy", "w").write("\n".join(out) + "\n")


if __name__ == "__main__":
    main(sys.argv[1], sys.argv[2])
