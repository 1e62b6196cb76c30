/** The store the application starts with (src/App.tsx, the initial
    `useState` values). Timestamps are minutes since midnight of
    2024-01-15, local time: 10:30 is 630 and 11:00 is 660. */
module Seed {
  import opened Types
  import opened App
  import opened OrderManagement

  /** Image addresses of the four seed pizzas. */
  const MargheritaImage: string :=
    "https://images.unsplash.com/photo-1574071318508-1cdbab80d002?crop=entropy&cs=tinysrgb&fit=max&fm=jpg&ixid=M3w3Nzg4Nzd8MHwxfHNlYXJjaHwxfHxwaXp6YSUyMG1hcmdoZXJpdGF8ZW58MXx8fHwxNzYzNTYwMzE3fDA&ixlib=rb-4.1.0&q=80&w=1080&utm_source=figma&utm_medium=referral"
  const PepperoniImage: string :=
    "https://images.unsplash.com/photo-1628840042765-356cda07504e?crop=entropy&cs=tinysrgb&fit=max&fm=jpg&ixid=M3w3Nzg4Nzd8MHwxfHNlYXJjaHwxfHxwZXBwZXJvbmklMjBwaXp6YXxlbnwxfHx8fDE3NjM2NTE2OTl8MA&ixlib=rb-4.1.0&q=80&w=1080&utm_source=figma&utm_medium=referral"
  const VegetarianImage: string :=
    "https://images.unsplash.com/photo-1617343251257-b5d709934ddd?crop=entropy&cs=tinysrgb&fit=max&fm=jpg&ixid=M3w3Nzg4Nzd8MHwxfHNlYXJjaHwxfHx2ZWdldGFyaWFuJTIwcGl6emF8ZW58MXx8fHwxNzYzNjA5NTk3fDA&ixlib=rb-4.1.0&q=80&w=1080&utm_source=figma&utm_medium=referral"
  const HawaiianImage: string :=
    "https://images.unsplash.com/photo-1565299624946-b28f40a0ae38?crop=entropy&cs=tinysrgb&fit=max&fm=jpg&ixid=M3w3Nzg4Nzd8MHwxfHNlYXJjaHwxfHxoYXdhaWlhbiUyMHBpenphfGVufDF8fHx8MTc2MzU1MjI5MXww&ixlib=rb-4.1.0&q=80&w=1080&utm_source=figma&utm_medium=referral"

  const SeedPizzas: seq<Pizza> := [
    Pizza("1", "Маргарита", "Томатный соус, моцарелла, базилик", 450,
          MargheritaImage, true),
    Pizza("2", "Пепперони", "Томатный соус, моцарелла, пепперони, орегано", 550,
          PepperoniImage, true),
    Pizza("3", "Вегетарианская", "Томатный соус, моцарелла, грибы, перец, оливки, помидоры", 500,
          VegetarianImage, true),
    Pizza("4", "Гавайская", "Томатный соус, моцарелла, ветчина, ананасы", 520,
          HawaiianImage, false)
  ]

  const SeedCouriers: seq<Courier> := [
    Courier("1", "Иван Петров", "+7 (999) 123-45-67", Free, None),
    Courier("2", "Мария Сидорова", "+7 (999) 234-56-78", Free, None),
    Courier("3", "Алексей Козлов", "+7 (999) 345-67-89", Busy, Some("1"))
  ]

  const SeedOrders: seq<Order> := [
    Order("1", "Анна Иванова", "+7 (999) 111-22-33", "ул. Пушкина, д. 10, кв. 5",
          [OrderItem("1", "Маргарита", 2, 450), OrderItem("2", "Пепперони", 1, 550)],
          1450, Delivering, Some("3"), Some("Алексей Козлов"), 630, 660),
    Order("2", "Петр Смирнов", "+7 (999) 222-33-44", "пр. Ленина, д. 45, кв. 12",
          [OrderItem("3", "Вегетарианская", 3, 500)],
          1500, Preparing, None, None, 660, 660)
  ]

  /** The initial couriers and orders under any menu: orders keep their
      own item snapshots, so the binding between couriers and orders does
      not depend on the pizzas. Every seed order has items and a total equal
      to the sum of price × quantity, as a submitted order would, and a seed
      courier is busy exactly when it holds an order. */
  function SeedStoreWith(ps: seq<Pizza>): (r: Store)
    ensures r.pizzas == ps && r.couriers == SeedCouriers && r.orders == SeedOrders
    ensures forall j :: 0 <= j < |r.orders| ==> |r.orders[j].items| > 0 && r.orders[j].total == Total(r.orders[j].items)
    ensures forall k :: 0 <= k < |r.couriers| ==> (r.couriers[k].status == Busy <==> r.couriers[k].currentOrderId.Some?)
  {
    Store(ps, SeedCouriers, SeedOrders)
  }

  const SeedStore := SeedStoreWith(SeedPizzas)
}
